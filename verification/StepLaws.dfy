/** What hearing a message, a timeout, the start and the end of a transfer do in any run,
    in terms of chunks, acknowledgements and clock readings. */
module StepLaws {
  import opened Control
  import opened Wire
  import opened SrSender
  import opened SenderLaws
  import opened SrReceiver
  import opened Protocol
  import opened ProtocolSafety

  /** Step i of a run hears the message at the head of the connection. */
  ghost predicate Hears(m: Outgoing, states: seq<State>, steps: seq<Step>, i: nat, msg: ControlMessage)
    requires m.Valid()
  {
    && Run(m, states, steps) && i < |steps| && steps[i].Deliver?
    && states[i].mode in {Polling, Draining} && states[i].connected
    && states[i].control != [] && states[i].control[0] == msg
  }

  /** Only the sender has moved, by taking that message. */
  predicate Took(s: State, t: State, sender: Sender, mode: Mode) {
    s.control != [] && t == s.(sender := sender, mode := mode, control := s.control[1..])
  }

  lemma StepOf(m: Outgoing, states: seq<State>, steps: seq<Step>, i: nat)
    requires m.Valid() && Run(m, states, steps) && i < |steps|
    ensures Inv(m, states[i]) && Ready(m, states[i]) && states[i + 1] == Next(m, states[i], steps[i])
  {
    RunKeeps(m, states, steps, i);
    assert StepTaken(m, states[i], steps[i], states[i + 1]);
  }

  lemma MessageOf(m: Outgoing, states: seq<State>, steps: seq<Step>, i: nat, msg: ControlMessage)
    requires m.Valid() && Hears(m, states, steps, i, msg)
    ensures states[i].sender.Shaped() && MessageTrue(states[i].frontend, msg)
    ensures |states[i].frontend| == m.layout.Chunks() == states[i].sender.total
    ensures states[i + 1] == OnMessage(states[i], steps[i].rtoMs, steps[i].clock)
  {
    hide OnMessage;
    StepOf(m, states, steps, i);
    assert MessageTrue(states[i].frontend, states[i].control[0]);
  }

  // ---- hearing a message ----

  /** An SR_ACK heard while polling is applied in full; it ends poll exactly when its
      prefix is the whole message. */
  lemma AckHeard(m: Outgoing, states: seq<State>, steps: seq<Step>, i: nat, msg: ControlMessage)
    returns (a: Sender, u: Sender, swept: seq<nat>, moved: seq<nat>)
    requires m.Valid() && Hears(m, states, steps, i, msg) && states[i].mode == Polling && msg.kind == SrAck
    ensures var s, r := states[i].sender, states[i + 1].sender;
      && Heard(s, msg, a) && SweptAndMoved(a, u, r, swept, moved, steps[i].clock)
      && r.log == s.log + swept + moved
    ensures Took(states[i], states[i + 1], states[i + 1].sender,
                 if msg.cumulative != 0xFFFF_FFFF && msg.cumulative + 1 == m.layout.Chunks()
                 then Returned(0) else Polling)
  {
    hide HandleAck;
    hide HandleNack;
    hide HandleTimeout;
    hide AckIsFinal;
    hide Heard;
    hide SweptAndMoved;
    MessageOf(m, states, steps, i, msg);
    m.layout.HasChunk();
    AckEndsPoll(msg);
    a, u, swept, moved := AckSends(states[i].sender, msg, steps[i].clock);
  }

  /** An SR_NACK heard while polling is applied in full: claims first, then the walk over
      its gaps, the sweep and the cursor. Poll goes on. */
  lemma NackHeard(m: Outgoing, states: seq<State>, steps: seq<Step>, i: nat, msg: ControlMessage)
    returns (
      a: Sender, t: Sender, u: Sender, todo: seq<nat>, upto: nat, at: nat -> nat,
      walked: seq<nat>, swept: seq<nat>, moved: seq<nat>)
    requires m.Valid() && Hears(m, states, steps, i, msg) && states[i].mode == Polling && msg.kind == SrNack
    ensures var s, r, clock := states[i].sender, states[i + 1].sender, steps[i].clock;
      && Heard(s, msg, a)
      && Named(msg, s.total, todo) && WalkDecides(a, todo, 0, upto, walked, at, t.tick, 8, clock)
      && Transmitted(a, t, walked) && Stamped(a, t, walked, clock) && t.next == a.next
      && SweptAndMoved(t, u, r, swept, moved, clock)
      && r.log == s.log + walked + swept + moved
    ensures Took(states[i], states[i + 1], states[i + 1].sender, Polling)
  {
    hide HandleAck;
    hide HandleNack;
    hide HandleTimeout;
    hide AckIsFinal;
    hide Heard;
    hide SweptAndMoved;
    hide WalkDecides;
    hide Transmitted;
    hide Stamped;
    hide Named;
    MessageOf(m, states, steps, i, msg);
    a, t, u, todo, upto, at, walked, swept, moved := NackSends(states[i].sender, msg, steps[i].clock);
  }

  /** The receiver's verdict ends poll: at once while polling, and inside sdr_send_poll when
      it is good. Reports that arrive there are dropped. */
  lemma VerdictHeard(m: Outgoing, states: seq<State>, steps: seq<Step>, i: nat, msg: ControlMessage)
    requires m.Valid() && Hears(m, states, steps, i, msg)
    ensures msg.kind in {SrAck, SrNack, CompleteAck, IncompleteNack}
    ensures var s, t := states[i], states[i + 1];
      && (msg.kind == CompleteAck ==> Took(s, t, s.sender, Returned(0)))
      && (msg.kind == IncompleteNack && s.mode == Polling ==> Took(s, t, s.sender, Returned(-1)))
      && (msg.kind in {SrAck, SrNack} && s.mode == Draining ==> Took(s, t, s.sender, Draining))
  {
    hide HandleAck;
    hide HandleNack;
    hide HandleTimeout;
    MessageOf(m, states, steps, i, msg);
  }

  /** A bad one there sends everything overdue again and returns to polling. */
  lemma FailureHeard(m: Outgoing, states: seq<State>, steps: seq<Step>, i: nat, msg: ControlMessage)
    returns (sent: seq<nat>)
    requires m.Valid() && Hears(m, states, steps, i, msg)
    requires states[i].mode == Draining && msg.kind == IncompleteNack
    ensures Took(states[i], states[i + 1], states[i + 1].sender, Polling)
    ensures var s, now := states[i].sender, steps[i].clock(states[i].sender.tick);
      Overdue(s, 0, now, steps[i].rtoMs, sent) && ResentAt(s, states[i + 1].sender, now, sent)
  {
    hide HandleAck;
    hide HandleNack;
    hide HandleTimeout;
    hide Overdue;
    hide ResentAt;
    MessageOf(m, states, steps, i, msg);
    sent := TimeoutSends(states[i].sender, steps[i].rtoMs, steps[i].clock);
  }

  // ---- nothing heard ----

  /** A control timeout while polling takes the sender into sdr_send_poll, or out of poll
      with success when the connection is gone. */
  lemma TimeoutPolling(m: Outgoing, states: seq<State>, steps: seq<Step>, i: nat)
    requires m.Valid() && Run(m, states, steps) && i < |steps| && steps[i].Timeout? && states[i].mode == Polling
    ensures states[i + 1] == states[i].(mode := if states[i].connected then Draining else Returned(0))
  {
    StepOf(m, states, steps, i);
  }

  /** One inside sdr_send_poll is no event while the connection is up; when it is gone,
      everything overdue goes out again and polling resumes. */
  lemma TimeoutDraining(m: Outgoing, states: seq<State>, steps: seq<Step>, i: nat) returns (sent: seq<nat>)
    requires m.Valid() && Run(m, states, steps) && i < |steps| && steps[i].Timeout? && states[i].mode == Draining
    ensures states[i].connected ==> states[i + 1] == states[i]
    ensures !states[i].connected ==>
      var s, now := states[i].sender, steps[i].clock(states[i].sender.tick);
      && states[i + 1] == states[i].(sender := states[i + 1].sender, mode := Polling)
      && Overdue(s, 0, now, steps[i].rtoMs, sent) && ResentAt(s, states[i + 1].sender, now, sent)
  {
    hide HandleTimeout;
    hide Overdue;
    hide ResentAt;
    StepOf(m, states, steps, i);
    sent := TimeoutSends(states[i].sender, steps[i].rtoMs, steps[i].clock);
  }

  // ---- the start ----

  /** start_send puts the first chunks on the network, all of them when no window is set. */
  lemma StartedInRun(m: Outgoing, states: seq<State>, steps: seq<Step>, i: nat)
    requires m.Valid() && Run(m, states, steps) && i < |steps|
    requires steps[i].StartSend? && states[i].mode == NotStarted
    ensures var r, total, configured := states[i + 1].sender, m.layout.Chunks(), steps[i].configured;
      && states[i + 1] == states[i].(sender := r, mode := Polling)
      && r.log == Span(0, if 0 < configured < total then configured else total) && r.next == |r.log|
      && r.total == total && r.inflight == (if configured != 0 then configured else total) && r.ackBase == 0
      && forall c: nat :: c < total ==> !r.acked[c]
  {
    hide Start;
    StepOf(m, states, steps, i);
    m.layout.HasChunk();
    StartSends(m.layout.Chunks(), steps[i].configured, steps[i].clock);
  }

  // ---- the end ----

  predicate Copying(s: State, w: nat) {
    w < |s.workers| && s.workers[w].Writing?
  }

  /** sdr_recv_complete, when no worker is copying and pump is not running, sends its
      verdict after all that was sent before: good exactly when every chunk is marked. */
  lemma VerdictSent(m: Outgoing, states: seq<State>, steps: seq<Step>, i: nat)
    requires m.Valid() && Run(m, states, steps) && i < |steps| && steps[i] == Finish
    requires !states[i].finished && states[i].pump == Resting && forall w: nat :: !Copying(states[i], w)
    ensures var s, t := states[i], states[i + 1];
      && |t.control| == |s.control| + 1 && s.control <= t.control
      && t == s.(finished := true, control := t.control)
      && t.control[|s.control|].kind ==
           if forall c :: 0 <= c < |s.frontend| ==> s.frontend[c] then CompleteAck else IncompleteNack
  {
    StepOf(m, states, steps, i);
    forall w | 0 <= w < |states[i].workers| ensures !states[i].workers[w].Writing? {
      assert !Copying(states[i], w);
    }
  }

  /** Once finished, nothing is being written and no report is being built. */
  ghost predicate Still(s: State) {
    s.finished ==> s.pump == Resting && forall w: nat :: !Copying(s, w)
  }

  /** Receiver and connection as they were, except that messages may have been taken. */
  predicate Frozen(s: State, t: State) {
    && t.finished && t.buffer == s.buffer && t.received == s.received && t.frontend == s.frontend
    && |t.control| <= |s.control| && t.control == s.control[|s.control| - |t.control|..]
  }

  predicate BySender(step: Step) {
    step.StartSend? || step.Deliver? || step.Timeout? || step.Disconnect?
  }

  lemma SenderStep(m: Outgoing, s: State, step: Step)
    requires m.Valid() && Ready(m, s) && BySender(step)
    ensures var t := Next(m, s, step);
      && t == s.(sender := t.sender, mode := t.mode, connected := t.connected, control := t.control)
      && |t.control| <= |s.control| && t.control == s.control[|s.control| - |t.control|..]
  {
    hide OnMessage;
    hide OnTimeout;
    hide Start;
    hide AllDone;
    if Enabled(m, s, step) {
      match step
      case Deliver(rtoMs, clock) => MessageTaken(s, rtoMs, clock);
      case Timeout(rtoMs, clock) => TimeoutTaken(s, rtoMs, clock);
      case _ =>
    }
  }

  lemma ReceiverStep(m: Outgoing, s: State, step: Step)
    requires m.Valid() && Ready(m, s) && Still(s) && !BySender(step) && s.finished
    ensures var t := Next(m, s, step); t == s.(workers := t.workers) && forall w: nat :: !Copying(t, w)
  {
    hide Honest;
    hide AllDone;
    var t := Next(m, s, step);
    assert step.Write? || step.Publish? ==> !Copying(s, step.w);
    forall w: nat ensures !Copying(t, w) {
      assert !Copying(s, w);
    }
  }

  lemma FirstFinish(m: Outgoing, s: State, step: Step)
    requires m.Valid() && Ready(m, s) && !s.finished && Next(m, s, step).finished
    ensures Still(Next(m, s, step))
  {
    hide HandleAck;
    hide HandleNack;
    hide HandleTimeout;
    hide Start;
    hide Honest;
    hide AllDone;
  }

  lemma StillStep(m: Outgoing, s: State, step: Step)
    requires m.Valid() && Ready(m, s) && Still(s)
    ensures Still(Next(m, s, step))
    ensures s.finished ==> Frozen(s, Next(m, s, step))
  {
    hide Next;
    var t := Next(m, s, step);
    if s.finished && BySender(step) {
      SenderStep(m, s, step);
      forall w: nat ensures !Copying(t, w) {
        assert !Copying(s, w);
      }
    } else if s.finished {
      ReceiverStep(m, s, step);
    } else if t.finished {
      FirstFinish(m, s, step);
    }
  }

  lemma {:induction false} StillInRun(m: Outgoing, states: seq<State>, steps: seq<Step>, i: nat)
    requires m.Valid() && Run(m, states, steps) && i < |states|
    ensures Still(states[i])
  {
    hide Next;
    hide Inv;
    if i > 0 {
      StillInRun(m, states, steps, i - 1);
      StepOf(m, states, steps, i - 1);
      StillStep(m, states[i - 1], steps[i - 1]);
    }
  }

  /** After the verdict the receiver's memory is never written again, no bit is set and
      nothing more is sent: whatever the sender does, it hears the verdict last. */
  lemma {:induction false} FinishedForGood(m: Outgoing, states: seq<State>, steps: seq<Step>, i: nat, j: nat)
    requires m.Valid() && Run(m, states, steps) && i <= j < |states| && states[i].finished
    ensures Frozen(states[i], states[j])
    decreases j - i
  {
    hide Next;
    hide Inv;
    if i < j {
      FinishedForGood(m, states, steps, i, j - 1);
      StillInRun(m, states, steps, j - 1);
      StepOf(m, states, steps, j - 1);
      StillStep(m, states[j - 1], steps[j - 1]);
    }
  }
}
