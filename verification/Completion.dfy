/** When a transfer can still be completed: always while the sender polls, and inside
    sdr_send_poll exactly when everything missing has been transmitted already. */
module Completion {
  import opened Geometry
  import opened Control
  import opened Wire
  import opened Clocks
  import opened SrSender
  import opened SrReceiver
  import opened RestReport
  import opened Protocol
  import opened ProtocolSafety
  import opened EndToEnd
  import opened Progress
  import opened Reach

  ghost predicate NoVerdict(s: State) {
    forall i :: 0 <= i < |s.control| ==> s.control[i].kind != IncompleteNack
  }

  /** The connection is up, the receiver has not given up, and it has a worker. */
  ghost predicate Alive(s: State) {
    s.connected && !s.finished && 0 < |s.workers| && NoVerdict(s)
  }

  /** Nothing is under way: the connection is empty, pump rests, and worker 0 is free. The
      other workers and the poller may be anywhere. */
  ghost predicate Quiet(s: State) {
    Alive(s) && s.control == [] && s.pump == Resting && s.workers[0] == Waiting
  }

  ghost predicate Complete(m: Outgoing, s: State) {
    s.mode == Returned(0) && s.connected && s.buffer == m.data
  }

  /** The transfer can be completed from s with a clock that reads `since` or later from now
      on, and never runs backwards. */
  ghost predicate CanComplete(m: Outgoing, s: State, since: int)
    requires m.Valid() && Ready(m, s)
  {
    exists t: State, clock: Clock :: Leads(m, s, t, clock) && Complete(m, t) && Forward(clock, since)
  }

  // ---- before the receiver gives up, no failure is under way ----

  lemma {:induction false} NoVerdictYet(m: Outgoing, states: seq<State>, steps: seq<Step>, i: nat)
    requires m.Valid() && Run(m, states, steps) && i < |states| && !states[i].finished
    ensures NoVerdict(states[i])
  {
    if i > 0 {
      assert StepTaken(m, states[i - 1], steps[i - 1], states[i]);
      VerdictByFinishing(m, states[i - 1], steps[i - 1]);
      if !states[i - 1].finished {
        NoVerdictYet(m, states, steps, i - 1);
      }
    }
  }

  lemma VerdictByFinishing(m: Outgoing, s: State, step: Step)
    requires m.Valid() && Ready(m, s) && !Next(m, s, step).finished
    ensures !s.finished && (NoVerdict(s) ==> NoVerdict(Next(m, s, step)))
  {
    hide Next;
    QueueMoves(m, s, step);
    NeverUnfinished(m, s, step);
  }

  lemma NeverUnfinished(m: Outgoing, s: State, step: Step)
    requires m.Valid() && Ready(m, s)
    ensures s.finished ==> Next(m, s, step).finished
  {
  }

  /** A step takes the head of the queue, adds to its tail, or leaves it alone. */
  lemma QueueMoves(m: Outgoing, s: State, step: Step)
    requires m.Valid() && Ready(m, s)
    ensures var t := Next(m, s, step);
      || t.control == s.control
      || (s.control != [] && t.control == s.control[1..])
      || (t.control != [] && t.control == s.control + [t.control[|t.control| - 1]]
           && (t.control[|t.control| - 1].kind == IncompleteNack ==> t.finished))
  {
    hide OnMessage;
    hide OnTimeout;
    hide Start;
    hide AllDone;
    if Enabled(m, s, step) {
      match step
      case Deliver(rtoMs, clock) => MessageTaken(s, rtoMs, clock);
      case Timeout(rtoMs, clock) => TimeoutTaken(s, rtoMs, clock);
      case _ =>
    }
  }

  // ---- calming down ----

  ghost predicate OnlyPumped(s: State, t: State) {
    && t == s.(pump := Resting, control := t.control)
    && (NoVerdict(s) ==> NoVerdict(t))
  }

  /** A pump under way may send what it would send at rest. */
  lemma FlushPump(m: Outgoing, s: State, clock: Clock) returns (t: State)
    requires m.Valid() && Ready(m, s) && PumpTrue(s) && 0 < |s.frontend| < UINT16_VALUES
    ensures Ready(m, t) && Leads(m, s, t, clock) && OnlyPumped(s, t)
  {
    hide Leads;
    if s.pump == Resting {
      LeadsNowhere(m, s, clock);
      t := s;
    } else {
      var msg := ReportFor(s.pump.before, s.frontend);
      t := SendReport(m, s, msg, clock);
    }
  }

  lemma ReportFor(before: seq<bool>, after: seq<bool>) returns (msg: ControlMessage)
    requires 0 < |after| < UINT16_VALUES && |before| == |after|
    requires forall c :: 0 <= c < |before| && before[c] ==> after[c]
    ensures Honest(before, after, msg)
  {
    msg := Report(after);
    HonestEarlier(before, after, after, msg);
  }

  lemma SendReport(m: Outgoing, s: State, msg: ControlMessage, clock: Clock) returns (t: State)
    requires m.Valid() && Ready(m, s) && s.pump.Pumping? && Honest(s.pump.before, s.frontend, msg)
    ensures Ready(m, t) && Leads(m, s, t, clock) && OnlyPumped(s, t) && t.control == s.control + [msg]
  {
    hide Leads;
    t := Next(m, s, PumpSend(msg));
    LeadsOneStep(m, s, PumpSend(msg), clock);
  }

  ghost predicate Listening(s: State) {
    s.mode in {Polling, Draining}
  }

  /** Only the sender's side has moved, and its transmissions are kept. */
  ghost predicate OnlyHeard(s: State, t: State) {
    t == s.(sender := t.sender, mode := t.mode, control := t.control) && s.sender.log <= t.sender.log
  }

  lemma HearOne(m: Outgoing, s: State, clock: Clock)
    requires m.Valid() && Ready(m, s) && SenderTrue(m, s)
    requires Listening(s) && s.connected && s.control != [] && NoVerdict(s)
    requires MessageTrue(s.frontend, s.control[0])
    ensures var t := Next(m, s, Deliver(0, clock));
      && OnlyHeard(s, t) && |t.control| < |s.control| && NoVerdict(t)
      && (t.mode == Returned(0) || t.mode == s.mode)
  {
    hide HandleAck;
    hide HandleNack;
    MessageHandled(m, s, 0, clock);
  }

  /** Hearing a report leaves no chunk that is not ready to be resent at the next reading. */
  lemma HeardAged(m: Outgoing, s: State, clock: Clock)
    requires m.Valid() && Ready(m, s) && Listening(s) && s.connected && s.control != [] && NoVerdict(s)
    requires Ticking(clock) && Aged(s.sender, clock)
    ensures Aged(Next(m, s, Deliver(0, clock)).sender, clock)
  {
    hide HandleAck;
    hide HandleNack;
    hide Aged;
    hide Ticking;
    AckAged(s.sender, s.control[0], clock);
    NackAged(s.sender, s.control[0], clock);
  }

  lemma HeadTrue(m: Outgoing, s: State)
    requires m.Valid() && Inv(m, s)
    ensures SenderTrue(m, s) && PumpTrue(s) && |s.frontend| == m.layout.Chunks()
    ensures s.control != [] ==> MessageTrue(s.frontend, s.control[0])
    ensures forall w :: 0 <= w < |s.workers| && s.workers[w].Writing? ==>
      s.workers[w].written <= |s.workers[w].packet.payload|
  {
    forall w | 0 <= w < |s.workers| && s.workers[w].Writing?
      ensures s.workers[w].written <= |s.workers[w].packet.payload|
    {
      assert WorkerTrue(m, s, s.workers[w]);
    }
  }

  /** A sender that has returned success on a live connection has delivered. */
  lemma ReturnedIsComplete(m: Outgoing, s: State)
    requires m.Valid() && Inv(m, s) && s.mode == Returned(0) && s.connected
    ensures Complete(m, s)
  {
    AllChunksDelivered(m, s);
  }

  /** The sender hears everything under way, and unless that ends the transfer it goes on
      listening as before. */
  lemma {:induction false} HearAll(m: Outgoing, s: State, clock: Clock) returns (t: State)
    requires m.Valid() && Ready(m, s) && Inv(m, s) && Listening(s) && s.connected && NoVerdict(s)
    requires Ticking(clock) && Aged(s.sender, clock)
    ensures Ready(m, t) && Leads(m, s, t, clock)
    ensures Complete(m, t) || (OnlyHeard(s, t) && t.mode == s.mode && t.control == [] && Aged(t.sender, clock))
    decreases |s.control|
  {
    hide Inv;
    hide Leads;
    hide Ready;
    hide Next;
    hide NoVerdict;
    hide SenderTrue;
    hide PumpTrue;
    hide MessageTrue;
    hide Aged;
    hide Ticking;
    if s.control == [] {
      LeadsNowhere(m, s, clock);
      t := s;
    } else {
      HeadTrue(m, s);
      HearOne(m, s, clock);
      HeardAged(m, s, clock);
      StepKeeps(m, s, Deliver(0, clock));
      LeadsOneStep(m, s, Deliver(0, clock), clock);
      var u := Next(m, s, Deliver(0, clock));
      if u.mode == Returned(0) {
        ReturnedIsComplete(m, u);
        t := u;
      } else {
        t := HearAll(m, u, clock);
        LeadsThen(m, s, u, t, clock);
      }
    }
  }

  /** What has changed on the way to a quiet state. */
  ghost predicate Calmed(s: State, t: State) {
    && t.mode == s.mode && Quiet(t) && s.sender.log <= t.sender.log && |t.frontend| == |s.frontend|
  }

  /** From every live state on which the sender listens, a quiet one can be reached, or
      the end of the transfer. */
  lemma CalmDown(m: Outgoing, s: State, clock: Clock) returns (t: State)
    requires m.Valid() && Ready(m, s) && Inv(m, s) && Listening(s) && Alive(s)
    requires Ticking(clock) && Aged(s.sender, clock)
    ensures Ready(m, t) && Leads(m, s, t, clock)
    ensures Complete(m, t) || (Calmed(s, t) && Aged(t.sender, clock))
  {
    hide Aged;
    hide Ticking;
    hide Inv;
    hide Leads;
    hide Ready;
    hide Next;
    hide SenderTrue;
    hide PumpTrue;
    hide MessageTrue;
    hide NoVerdict;
    HeadTrue(m, s);
    m.layout.HasChunk();
    var u := FreeWorker(m, s, clock);
    LeadsKeeps(m, s, u, clock);
    HeadTrue(m, u);
    SameQueue(s, u);
    var v := FlushPump(m, u, clock);
    LeadsThen(m, s, u, v, clock);
    LeadsKeeps(m, s, v, clock);
    t := HearAll(m, v, clock);
    LeadsThen(m, s, v, t, clock);
    NothingQueued(t);
  }

  lemma SameQueue(s: State, t: State)
    requires NoVerdict(s) && t.control == s.control
    ensures NoVerdict(t)
  {
  }

  lemma NothingQueued(s: State)
    ensures s.control == [] ==> NoVerdict(s)
  {
  }

  // ---- one round from a quiet state ----

  /** Pump reports, at rest, what is missing; the report waits alone on the connection. */
  lemma Pumped(m: Outgoing, s: State, msg: ControlMessage, clock: Clock) returns (t: State)
    requires m.Valid() && Ready(m, s) && Quiet(s) && Exact(s.frontend, msg)
    ensures Ready(m, t) && Leads(m, s, t, clock) && t == s.(control := [msg])
  {
    hide Leads;
    hide Exact;
    var u := StartPump(m, s, clock);
    ExactHonest(s.frontend, msg);
    t := SendReport(m, u, msg, clock);
    LeadsThen(m, s, u, t, clock);
    assert [] + [msg] == [msg];
  }

  lemma StartPump(m: Outgoing, s: State, clock: Clock) returns (t: State)
    requires m.Valid() && Ready(m, s) && !s.finished && s.pump == Resting
    ensures Ready(m, t) && Leads(m, s, t, clock) && t == s.(pump := Pumping(s.frontend))
  {
    hide Leads;
    t := Next(m, s, PumpStart);
    LeadsOneStep(m, s, PumpStart, clock);
  }

  lemma ExactHonest(done: seq<bool>, msg: ControlMessage)
    requires Exact(done, msg)
    ensures Honest(done, done, msg)
  {
  }

  lemma HearNack(m: Outgoing, s: State, clock: Clock)
    requires m.Valid() && Ready(m, s) && s.connected && s.mode == Polling
    requires s.control != [] && s.control[0].kind == SrNack
    ensures Next(m, s, Deliver(0, clock))
      == s.(sender := HandleNack(s.sender, s.control[0], clock), control := s.control[1..])
  {
  }

  lemma FreshGaps(m: Outgoing, s: State, c: nat)
    requires m.Valid() && Inv(m, s) && s.control != [] && s.control[0].kind == SrNack
    requires c in Expand(s.control[0].gaps)
    ensures CursorBounds(s.sender)
    ensures c < s.sender.total && !Apply(s.sender, s.control[0]).acked[c]
  {
    assert GapFresh(s, 0, c);
  }

  /** The first chunk a report names is retransmitted when the report is heard. */
  lemma FirstTransmitted(m: Outgoing, s: State, msg: ControlMessage, clock: Clock)
    requires m.Valid() && Inv(m, s) && s.control == [msg] && msg.kind == SrNack && s.sender.Shaped()
    requires Runs(msg.gaps, s.frontend) && msg.gaps != [] && Ascending(Expand(msg.gaps))
    requires AllRipe(Apply(s.sender, msg), Expand(msg.gaps), clock)
    ensures Expand(msg.gaps) != []
    ensures Expand(msg.gaps)[0] in HandleNack(s.sender, msg, clock).log
  {
    hide Inv;
    hide HandleNack;
    hide AllRipe;
    hide Walk;
    GapNotEmpty(msg.gaps, s.frontend);
    var todo := Expand(msg.gaps);
    forall c | c in todo ensures c < s.sender.total && !Apply(s.sender, msg).acked[c] {
      FreshGaps(m, s, c);
    }
    FreshGaps(m, s, todo[0]);
    GapsResent(s.sender, msg, clock);
    var resent := todo[..Min(GAP_LIMIT, |todo|)];
    var log := HandleNack(s.sender, msg, clock).log;
    assert s.sender.log + resent <= log;
    assert log[|s.sender.log|] == resent[0] == todo[0];
  }

  lemma ExactGaps(done: seq<bool>, msg: ControlMessage)
    requires Exact(done, msg) && msg.kind == SrNack
    ensures Runs(msg.gaps, done) && msg.gaps != [] && Ascending(Expand(msg.gaps)) && Expand(msg.gaps) != []
    ensures Expand(msg.gaps)[0] < |done| && !done[Expand(msg.gaps)[0]]
  {
    GapNotEmpty(msg.gaps, done);
    assert GapMissing(done, msg, Expand(msg.gaps)[0]);
  }

  /** The sender answers a report of missing chunks: one of them has been transmitted. */
  lemma Answered(m: Outgoing, s: State, told: State, msg: ControlMessage, clock: Clock) returns (t: State, c: nat)
    requires m.Valid() && Ready(m, told) && Inv(m, told) && Quiet(s) && s.mode == Polling
    requires told == s.(control := [msg]) && told.sender.Shaped() && Exact(s.frontend, msg) && msg.kind == SrNack
    requires AllRipe(Apply(s.sender, msg), Expand(msg.gaps), clock)
    requires Ticking(clock) && Aged(s.sender, clock)
    ensures Ready(m, t) && Leads(m, told, t, clock) && t == s.(sender := t.sender) && Aged(t.sender, clock)
    ensures c < |s.frontend| && !s.frontend[c] && c in t.sender.log
  {
    hide Inv;
    hide Leads;
    hide Next;
    hide Exact;
    hide AllRipe;
    hide HandleNack;
    hide Ready;
    ExactGaps(s.frontend, msg);
    hide Aged;
    hide Ticking;
    FirstTransmitted(m, told, msg, clock);
    NackAged(told.sender, msg, clock);
    HearNack(m, told, clock);
    LeadsOneStep(m, told, Deliver(0, clock), clock);
    t, c := Next(m, told, Deliver(0, clock)), Expand(msg.gaps)[0];
  }

  lemma ShapedPart(m: Outgoing, s: State)
    requires m.Valid() && Inv(m, s)
    ensures s.sender.Shaped() && s.sender.total == |s.frontend| == m.layout.Chunks()
  {
  }

  /** Reported and retransmitted: something missing has been transmitted. */
  lemma Asked(m: Outgoing, s: State, msg: ControlMessage, clock: Clock) returns (t: State, c: nat)
    requires m.Valid() && Ready(m, s) && Inv(m, s) && Quiet(s) && s.mode == Polling
    requires Exact(s.frontend, msg) && msg.kind == SrNack
    requires Ticking(clock) && Aged(s.sender, clock)
    ensures Ready(m, t) && Leads(m, s, t, clock) && t == s.(sender := t.sender) && Aged(t.sender, clock)
    ensures c < |s.frontend| && !s.frontend[c] && c in t.sender.log
  {
    hide Inv;
    hide Leads;
    hide Ready;
    hide Quiet;
    hide Exact;
    hide AllRipe;
    hide Apply;
    hide Aged;
    hide Ticking;
    ShapedPart(m, s);
    ExactAscends(s.frontend, msg);
    var told := Pumped(m, s, msg, clock);
    LeadsKeeps(m, s, told, clock);
    AgedRipe(s.sender, msg, clock);
    t, c := Answered(m, s, told, msg, clock);
    LeadsThen(m, s, told, t, clock);
  }

  /** On a ticking clock every chunk a report names is ready to be resent. */
  lemma AgedRipe(s: Sender, msg: ControlMessage, clock: Clock)
    requires Ticking(clock) && Aged(s, clock) && s.Shaped() && Below(Expand(msg.gaps), s.total)
    ensures AllRipe(Apply(s, msg), Expand(msg.gaps), clock)
  {
    var todo := Expand(msg.gaps);
    forall k | 0 <= k < |todo| ensures RipeTime(Apply(s, msg), todo[k], clock) {
      ChunkRipe(s, todo[k], clock);
    }
  }

  lemma ChunkRipe(s: Sender, c: nat, clock: Clock)
    requires Ticking(clock) && Aged(s, clock) && c < |s.lastTx|
    ensures forall k: nat :: s.tick <= k ==> ElapsedMs(clock(k), s.lastTx[c]) >= GUARD_MS
  {
    forall k: nat | s.tick <= k ensures ElapsedMs(clock(k), s.lastTx[c]) >= GUARD_MS {
      assert clock(s.tick) <= clock(k);
    }
  }

  lemma ExactAscends(done: seq<bool>, msg: ControlMessage)
    requires Exact(done, msg)
    ensures Below(Expand(msg.gaps), |done|)
  {
    RunsAscend(msg.gaps, done);
  }

  lemma OneFewer(before: seq<bool>, after: seq<bool>, c: nat)
    requires |before| == |after| && forall d :: 0 <= d < |before| && before[d] ==> after[d]
    requires c < |before| && !before[c] && after[c]
    ensures |MissingSet(after)| < |MissingSet(before)|
  {
    FewerMissing(before, after, [c]);
  }

  /** A missing chunk that has been transmitted arrives and is marked. */
  lemma Arrive(m: Outgoing, s: State, c: nat, clock: Clock) returns (t: State)
    requires m.Valid() && Ready(m, s) && Inv(m, s) && Quiet(s)
    requires c < |s.frontend| && !s.frontend[c] && c in s.sender.log
    ensures Ready(m, t) && Leads(m, s, t, clock) && Inv(m, t) && Quiet(t)
    ensures t.sender == s.sender && t.mode == s.mode && Grown(s, t)
    ensures |MissingSet(t.frontend)| < |MissingSet(s.frontend)|
  {
    hide Inv;
    hide Leads;
    hide Ready;
    hide Next;
    hide ChunkIn;
    hide MissingSet;
    ShapedPart(m, s);
    m.layout.ChunkRange(c);
    var u := ReceiveChunk(m, s, c, ChunkLo(m.layout.ppc, c), clock);
    LeadsKeeps(m, s, u, clock);
    t := CatchUp(m, u, clock);
    LeadsThen(m, s, u, t, clock);
    LeadsKeeps(m, s, t, clock);
    OneFewer(s.frontend, t.frontend, c);
  }

  /** One round: reported, retransmitted, received and marked, at least one chunk fewer is
      missing, and everything is quiet again. */
  lemma OneRound(m: Outgoing, s: State, clock: Clock) returns (t: State)
    requires m.Valid() && Ready(m, s) && Inv(m, s) && Quiet(s) && s.mode == Polling
    requires !AllDone(s.frontend, 0, |s.frontend|) && Ticking(clock) && Aged(s.sender, clock)
    ensures Ready(m, t) && Leads(m, s, t, clock) && Inv(m, t) && Quiet(t) && t.mode == Polling
    ensures Aged(t.sender, clock) && |MissingSet(t.frontend)| < |MissingSet(s.frontend)|
  {
    hide Inv;
    hide Leads;
    hide Ready;
    hide Next;
    hide MissingSet;
    hide Report;
    hide Aged;
    hide Ticking;
    ShapedPart(m, s);
    m.layout.HasChunk();
    var u, c := Asked(m, s, Report(s.frontend), clock);
    LeadsKeeps(m, s, u, clock);
    SameQueue(s, u);
    t := Arrive(m, u, c, clock);
    LeadsThen(m, s, u, t, clock);
  }

  // ---- the end of a transfer ----

  lemma HearComplete(m: Outgoing, s: State, clock: Clock)
    requires m.Valid() && Ready(m, s) && s.connected && Listening(s)
    requires s.control != [] && s.control[0].kind == CompleteAck
    ensures var t := Next(m, s, Deliver(0, clock)); t.mode == Returned(0) && t.connected
  {
  }

  /** With every chunk marked, the next report ends the transfer. */
  lemma LastReport(m: Outgoing, s: State, clock: Clock) returns (t: State)
    requires m.Valid() && Ready(m, s) && Inv(m, s) && Quiet(s) && Listening(s)
    requires AllDone(s.frontend, 0, |s.frontend|)
    ensures Ready(m, t) && Leads(m, s, t, clock) && Complete(m, t)
  {
    hide Inv;
    hide Leads;
    hide Ready;
    hide Next;
    hide Report;
    ShapedPart(m, s);
    m.layout.HasChunk();
    var told := Pumped(m, s, Report(s.frontend), clock);
    HearComplete(m, told, clock);
    t := Next(m, told, Deliver(0, clock));
    LeadsOn(m, s, told, Deliver(0, clock), clock);
    LeadsKeeps(m, s, t, clock);
    ReturnedIsComplete(m, t);
  }

  lemma {:induction false} PollUntilDone(m: Outgoing, s: State, clock: Clock) returns (t: State)
    requires m.Valid() && Ready(m, s) && Inv(m, s) && Quiet(s) && s.mode == Polling
    requires Ticking(clock) && Aged(s.sender, clock)
    ensures Ready(m, t) && Leads(m, s, t, clock) && Complete(m, t)
    decreases |MissingSet(s.frontend)|
  {
    hide Aged;
    hide Ticking;
    hide Inv;
    hide Leads;
    hide Ready;
    hide Quiet;
    hide Complete;
    hide MissingSet;
    if AllDone(s.frontend, 0, |s.frontend|) {
      t := LastReport(m, s, clock);
    } else {
      var u := OneRound(m, s, clock);
      t := PollUntilDone(m, u, clock);
      LeadsThen(m, s, u, t, clock);
    }
  }

  /** From every live state in which the sender polls, whatever the workers, the poller and
      pump are in the middle of and whatever is under way, and from whatever time on, some
      path on a clock that never runs backwards ends with poll returning 0 and the message
      in the receiver's buffer. */
  lemma CompletionReachable(m: Outgoing, s: State, since: int) returns (t: State, clock: Clock)
    requires m.Valid() && Ready(m, s) && Inv(m, s) && Alive(s) && s.mode == Polling
    ensures Forward(clock, since) && Ready(m, t) && Leads(m, s, t, clock) && Complete(m, t)
  {
    hide Inv;
    hide Leads;
    hide Ready;
    hide Quiet;
    hide Alive;
    hide Complete;
    hide Aged;
    hide Ticking;
    hide Forward;
    ShapedPart(m, s);
    clock := SteadyClock(s.sender, since);
    var u := CalmDown(m, s, clock);
    if Complete(m, u) {
      t := u;
    } else {
      LeadsKeeps(m, s, u, clock);
      t := PollUntilDone(m, u, clock);
      LeadsThen(m, s, u, t, clock);
    }
  }

  // ---- inside sdr_send_poll ----

  /** Everything missing at the receiver has been transmitted already. */
  ghost predicate MissingSent(s: State) {
    forall c: nat :: c < |s.frontend| && !s.frontend[c] ==> c in s.sender.log
  }

  lemma MissingStaysSent(s: State, t: State)
    requires MissingSent(s) && s.sender.log <= t.sender.log && Grown(s, t)
    ensures MissingSent(t)
  {
    forall c: nat | c < |t.frontend| && !t.frontend[c] ensures c in t.sender.log {
      var i :| 0 <= i < |s.sender.log| && s.sender.log[i] == c;
      assert t.sender.log[i] == c;
    }
  }

  lemma {:induction false} DrainUntilDone(m: Outgoing, s: State, clock: Clock) returns (t: State)
    requires m.Valid() && Ready(m, s) && Inv(m, s) && Quiet(s) && Listening(s) && MissingSent(s)
    ensures Ready(m, t) && Leads(m, s, t, clock) && Complete(m, t)
    decreases |MissingSet(s.frontend)|
  {
    hide Inv;
    hide Leads;
    hide Ready;
    hide Quiet;
    hide Complete;
    hide MissingSet;
    if AllDone(s.frontend, 0, |s.frontend|) {
      t := LastReport(m, s, clock);
    } else {
      var c: nat :| c < |s.frontend| && !s.frontend[c];
      var u := Arrive(m, s, c, clock);
      MissingStaysSent(s, u);
      t := DrainUntilDone(m, u, clock);
      LeadsThen(m, s, u, t, clock);
    }
  }

  /** The connection is lost, or the receiver has given up on an incomplete message, or the
      sender still waits, or has been told the message is complete, without having
      transmitted anything more than `log`. */
  ghost predicate Stuck(log: seq<nat>, s: State) {
    || !s.connected
    || (s.finished && !AllDone(s.frontend, 0, |s.frontend|))
    || (s.mode in {Draining, Returned(0)} && s.sender.log == log && NoVerdict(s))
  }

  lemma StuckStep(m: Outgoing, log: seq<nat>, s: State, step: Step)
    requires m.Valid() && Ready(m, s) && QueueTrue(s) && |s.frontend| == m.layout.Chunks() && Stuck(log, s)
    ensures Stuck(log, Next(m, s, step))
  {
    if step.Deliver? && s.control != [] {
      assert MessageTrue(s.frontend, s.control[0]);
    }
  }

  lemma QueuePart(m: Outgoing, s: State)
    requires m.Valid() && Inv(m, s)
    ensures QueueTrue(s) && |s.frontend| == m.layout.Chunks()
  {
  }

  lemma {:induction false} StuckStays(m: Outgoing, log: seq<nat>, s: State, steps: seq<Step>)
    requires m.Valid() && Ready(m, s) && Inv(m, s) && Stuck(log, s)
    ensures Stuck(log, Exec(m, s, steps))
    decreases |steps|
  {
    hide Inv;
    hide Ready;
    hide Next;
    hide Stuck;
    hide QueueTrue;
    if steps != [] {
      var n := |steps| - 1;
      StuckStays(m, log, s, steps[..n]);
      ExecKeeps(m, s, steps[..n]);
      QueuePart(m, Exec(m, s, steps[..n]));
      StuckStep(m, log, Exec(m, s, steps[..n]), steps[n]);
    }
  }

  /** With every chunk marked, every chunk has been transmitted. */
  lemma DoneWasSent(m: Outgoing, t: State, c: nat)
    requires m.Valid() && Inv(m, t) && t.mode == Returned(0) && t.connected && c < m.layout.Chunks()
    ensures AllDone(t.frontend, 0, |t.frontend|) && c in t.sender.log
  {
    assert ChunkIn(m, t.received, c);
    var p := ChunkLo(m.layout.ppc, c);
    m.layout.ChunkRange(c);
    ChunkMembers(m.layout.Packets(), m.layout.ppc, c, p);
    assert PacketIn(m, t, p);
  }

  lemma OnlyWhatWasSent(m: Outgoing, s: State, t: State, clock: Clock)
    requires m.Valid() && Ready(m, s) && Inv(m, s) && Alive(s) && s.mode == Draining
    requires Leads(m, s, t, clock) && Complete(m, t)
    ensures MissingSent(s)
  {
    hide Inv;
    hide Ready;
    hide Next;
    var steps :| AllOnClock(steps, clock) && Exec(m, s, steps) == t;
    StuckStays(m, s.sender.log, s, steps);
    LeadsKeeps(m, s, t, clock);
    ShapedPart(m, s);
    forall c: nat | c < |s.frontend| && !s.frontend[c] ensures c in s.sender.log {
      DoneWasSent(m, t, c);
    }
  }

  lemma DrainCompletes(m: Outgoing, s: State, since: int) returns (t: State, clock: Clock)
    requires m.Valid() && Ready(m, s) && Inv(m, s) && Alive(s) && Listening(s) && MissingSent(s)
    ensures Forward(clock, since) && Ready(m, t) && Leads(m, s, t, clock) && Complete(m, t)
  {
    hide Inv;
    hide Ready;
    hide Leads;
    hide Alive;
    hide Quiet;
    hide Complete;
    hide MissingSent;
    hide Aged;
    hide Ticking;
    hide Forward;
    ShapedPart(m, s);
    clock := SteadyClock(s.sender, since);
    var u := CalmDown(m, s, clock);
    if Complete(m, u) {
      t := u;
    } else {
      LeadsKeeps(m, s, u, clock);
      MissingStaysSent(s, u);
      t := DrainUntilDone(m, u, clock);
      LeadsThen(m, s, u, t, clock);
    }
  }

  /** Inside sdr_send_poll the sender transmits nothing while the connection is up and the
      receiver goes on, so a live transfer can still be completed there exactly when
      everything missing has been transmitted already; while polling it always can. */
  lemma CompletableExactly(m: Outgoing, s: State, since: int)
    requires m.Valid() && Ready(m, s) && Inv(m, s) && Alive(s) && Listening(s)
    ensures CanComplete(m, s, since) <==> s.mode == Polling || MissingSent(s)
  {
    hide Inv;
    hide Ready;
    hide Leads;
    hide Alive;
    hide Complete;
    hide MissingSent;
    hide Forward;
    if s.mode == Polling {
      var t, clock := CompletionReachable(m, s, since);
    } else if MissingSent(s) {
      var t, clock := DrainCompletes(m, s, since);
    } else if t: State, clock: Clock :| Leads(m, s, t, clock) && Complete(m, t) && Forward(clock, since) {
      OnlyWhatWasSent(m, s, t, clock);
    }
  }

  lemma LiveInRun(m: Outgoing, states: seq<State>, steps: seq<Step>, i: nat)
    requires m.Valid() && Run(m, states, steps) && i < |states|
    requires states[i].connected && !states[i].finished && 0 < |states[i].workers|
    ensures Ready(m, states[i]) && Inv(m, states[i]) && Alive(states[i])
  {
    hide Inv;
    hide Ready;
    RunKeeps(m, states, steps, i);
    InvReady(m, states[i]);
    NoVerdictYet(m, states, steps, i);
  }

  /** The same for every state of every run. */
  lemma CompletableInRuns(m: Outgoing, states: seq<State>, steps: seq<Step>, i: nat, since: int)
    requires m.Valid() && Run(m, states, steps) && i < |states|
    requires states[i].connected && !states[i].finished && 0 < |states[i].workers| && Listening(states[i])
    ensures Ready(m, states[i])
    ensures CanComplete(m, states[i], since) <==> states[i].mode == Polling || MissingSent(states[i])
  {
    hide Inv;
    hide Ready;
    hide CanComplete;
    hide MissingSent;
    hide Alive;
    LiveInRun(m, states, steps, i);
    CompletableExactly(m, states[i], since);
  }

  /** So every run that has come to such a state while polling, or to one with everything
      missing transmitted, goes on to a completed transfer, on a clock that reads `since` or
      later from there on and never runs backwards. */
  lemma RunCompletes(m: Outgoing, states: seq<State>, steps: seq<Step>, since: int)
    returns (moreStates: seq<State>, moreSteps: seq<Step>, clock: Clock)
    requires m.Valid() && Run(m, states, steps)
    requires var s := states[|steps|];
      && s.connected && !s.finished && 0 < |s.workers| && Listening(s) && (s.mode == Polling || MissingSent(s))
    ensures states <= moreStates && steps <= moreSteps && Run(m, moreStates, moreSteps)
    ensures Complete(m, moreStates[|moreSteps|])
    ensures AllOnClock(moreSteps[|steps|..], clock) && Forward(clock, since)
  {
    hide Inv;
    hide Ready;
    hide Leads;
    hide Alive;
    hide Complete;
    hide MissingSent;
    hide Forward;
    hide AllOnClock;
    hide Init;
    hide StepTaken;
    LiveInRun(m, states, steps, |steps|);
    var t;
    if states[|steps|].mode == Polling {
      t, clock := CompletionReachable(m, states[|steps|], since);
    } else {
      t, clock := DrainCompletes(m, states[|steps|], since);
    }
    moreStates, moreSteps := RunGoesOn(m, states, steps, t, clock);
  }

  /** In particular a message just started on a live connection can always arrive: a whole
      run from the posted state to the completed transfer. */
  lemma StartedMeansCompletable(m: Outgoing, s: State, configured: nat, startClock: Clock, since: int)
    returns (states: seq<State>, steps: seq<Step>, clock: Clock)
    requires m.Valid() && Init(m, s) && s.connected && 0 < |s.workers|
    ensures Run(m, states, steps) && states[0] == s && steps != [] && steps[0] == StartSend(configured, startClock)
    ensures Complete(m, states[|steps|])
    ensures AllOnClock(steps[1..], clock) && Forward(clock, since)
  {
    hide Inv;
    hide Next;
    hide Complete;
    hide Forward;
    hide AllOnClock;
    hide Init;
    var t := JustStarted(m, s, configured, startClock);
    assert StepTaken(m, s, StartSend(configured, startClock), t);
    states, steps, clock := RunCompletes(m, [s, t], [StartSend(configured, startClock)], since);
  }

  lemma JustStarted(m: Outgoing, s: State, configured: nat, clock: Clock) returns (t: State)
    requires m.Valid() && Init(m, s) && s.connected && 0 < |s.workers|
    ensures Ready(m, s) && t == Next(m, s, StartSend(configured, clock))
    ensures t.connected && !t.finished && 0 < |t.workers| && t.mode == Polling
  {
    t := Next(m, s, StartSend(configured, clock));
  }
}
