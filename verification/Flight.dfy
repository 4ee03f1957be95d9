/** What max_inflight_ bounds: the cursor always, the chunks in flight exactly when the
    window is as large as the message. */
module Flight {
  import opened Geometry
  import opened Control
  import opened Wire
  import opened SrSender
  import opened SrReceiver
  import opened RestReport
  import opened Protocol
  import opened ProtocolSafety
  import opened EndToEnd

  /** Nothing at or beyond the edge of the window has been transmitted. */
  ghost predicate Within(s: Sender) {
    forall c: nat :: c in s.log ==> c < s.ackBase + s.inflight
  }

  ghost predicate AllWithin(states: seq<State>) {
    forall i :: 0 <= i < |states| ==> Within(states[i].sender)
  }

  ghost predicate Configured(steps: seq<Step>, configured: nat) {
    forall k :: 0 <= k < |steps| && steps[k].StartSend? ==> steps[k].configured == configured
  }

  /** In every run from s with this configuration the window is kept, in every state. */
  ghost predicate KeepsWindow(m: Outgoing, s: State, configured: nat)
    requires m.Valid()
  {
    forall states: seq<State>, steps: seq<Step> ::
      Run(m, states, steps) && states[0] == s && Configured(steps, configured) ==> AllWithin(states)
  }

  // ---- a window as large as the message ----

  ghost predicate InflightIs(s: State, w: nat) {
    s.mode != NotStarted ==> s.sender.inflight == w
  }

  lemma InflightStep(m: Outgoing, s: State, step: Step, configured: nat)
    requires m.Valid() && Ready(m, s) && SenderTrue(m, s)
    requires step.StartSend? ==> step.configured == configured
    requires InflightIs(s, Window(m.layout.Chunks(), configured))
    ensures InflightIs(Next(m, s, step), Window(m.layout.Chunks(), configured))
  {
    hide Next;
    if s.mode == NotStarted {
      NotYetStarted(m, s, step);
      if step.StartSend? {
        AdvanceReachesEdge(Fresh(m.layout.Chunks(), configured, step.clock), step.clock);
      }
    } else {
      StepFollows(m, s, step);
    }
  }

  lemma NotYetStarted(m: Outgoing, s: State, step: Step)
    requires m.Valid() && Ready(m, s) && s.mode == NotStarted
    ensures var t := Next(m, s, step);
      if step.StartSend? then t.sender == Start(m.layout.Chunks(), step.configured, step.clock)
      else t.mode == NotStarted
  {
    hide Start;
  }

  lemma {:induction false} InflightInRun(m: Outgoing, states: seq<State>, steps: seq<Step>, configured: nat, i: nat)
    requires m.Valid() && Run(m, states, steps) && Configured(steps, configured) && i < |states|
    ensures InflightIs(states[i], Window(m.layout.Chunks(), configured))
  {
    hide Inv;
    hide Next;
    hide SenderTrue;
    hide Ready;
    if i > 0 {
      InflightInRun(m, states, steps, configured, i - 1);
      RunKeeps(m, states, steps, i - 1);
      SenderParts(m, states[i - 1]);
      assert StepTaken(m, states[i - 1], steps[i - 1], states[i]);
      InflightStep(m, states[i - 1], steps[i - 1], configured);
    }
  }

  lemma WideWindow(m: Outgoing, states: seq<State>, steps: seq<Step>, configured: nat, i: nat)
    requires m.Valid() && Run(m, states, steps) && Configured(steps, configured) && i < |states|
    requires configured == 0 || configured >= m.layout.Chunks()
    ensures Within(states[i].sender)
  {
    hide Inv;
    m.layout.HasChunk();
    RunKeeps(m, states, steps, i);
    SenderParts(m, states[i]);
    InflightInRun(m, states, steps, configured, i);
  }

  // ---- a narrower one ----

  /** Chunks transmitted by the cursor were transmitted now, the others not. */
  lemma {:induction false} AdvanceTimes(s: Sender, clock: Clock, now: int)
    requires s.Shaped() && (forall c :: 0 <= c < s.total ==> !s.acked[c])
    requires forall k: nat :: s.tick <= k ==> clock(k) == now
    ensures var r := Advance(s, clock);
      && r.acked == s.acked && s.next <= r.next
      && forall c: nat :: c < s.total ==> r.lastTx[c] == if s.next <= c < r.next then now else s.lastTx[c]
    decreases s.total - s.next
  {
    if s.next < s.total && s.next < s.ackBase + s.inflight {
      var sent := Send(s, s.next, clock);
      AdvanceTimes(sent.(next := s.next + 1), clock, now);
    }
  }

  /** The walk passes over the chunks transmitted a moment ago and comes to the next one. */
  lemma {:induction false} WalkReaches(s: Sender, todo: seq<nat>, i: nat, w: nat, budget: nat, clock: Clock)
    requires CursorBounds(s) && Below(todo, s.total) && i <= w < |todo| && budget > 0
    requires forall k: nat :: clock(k) == GUARD_NANOS
    requires forall j :: i <= j <= w ==>
      !s.acked[todo[j]] && s.lastTx[todo[j]] == if j < w then GUARD_NANOS else 0
    ensures todo[w] in Walk(s, todo, i, budget, clock).log
    decreases w - i
  {
    var visited := Visit(s, todo[i], clock);
    if i < w {
      assert visited == (s.(tick := s.tick + 1), false);
      WalkReaches(visited.0, todo, i + 1, w, budget, clock);
    } else {
      assert visited.0.log == s.log + [todo[w]];
      VisitTransmits(s, todo[w], clock);
      WalkTransmits(visited.0, todo, i + 1, budget - 1, clock);
      InLog(s.log, todo[w], Walk(visited.0, todo, i + 1, budget - 1, clock).log);
    }
  }

  lemma InLog(before: seq<nat>, c: nat, after: seq<nat>)
    requires before + [c] <= after
    ensures c in after
  {
    assert after[|before|] == c;
  }

  function NoneYet(total: nat): seq<bool> {
    seq(total, _ => false)
  }

  /** A report of a message of which nothing has arrived: one gap, and no claim. */
  lemma NothingReported(total: nat, msg: ControlMessage)
    requires 0 < total < UINT16_VALUES && Exact(NoneYet(total), msg)
    ensures msg.kind == SrNack && Expand(msg.gaps) == Span(0, total)
    ensures msg.cumulative == UINT32_MAX && forall c: nat :: !msg.Claims(c)
  {
    OneGap(total, msg.gaps);
    NothingClaimed(total, msg);
  }

  lemma OneGap(total: nat, gaps: seq<Gap>)
    requires 0 < total && FirstRuns(gaps, NoneYet(total), REPORT_GAPS)
    ensures Expand(gaps) == Span(0, total)
  {
    var done, all := NoneYet(total), [Gap(0, total)];
    assert [][..0] + [Gap(0, total)] == all && all[..0] == [];
    assert Runs([], done) && NextRun(done, 0, Gap(0, total));
    RunsUnique(gaps, all, done, REPORT_GAPS);
    ExpandAppend([], Gap(0, total));
    assert [] + [Gap(0, total)] == all && Expand([]) + Span(0, total) == Span(0, total);
  }

  lemma NothingClaimed(total: nat, msg: ControlMessage)
    requires 0 < total && Honest(NoneYet(total), NoneYet(total), msg)
    ensures !AllDone(NoneYet(total), 0, total)
    ensures msg.cumulative == UINT32_MAX && forall c: nat :: !msg.Claims(c)
  {
    assert !NoneYet(total)[0];
    PrefixClaims(msg);
  }

  lemma PrefixClaims(msg: ControlMessage)
    ensures msg.cumulative != UINT32_MAX ==> msg.Claims(0)
  {
  }

  /** A guard time after the start, nothing is acked, and the chunks inside the window have
      been transmitted a moment ago. */
  ghost predicate GuardLater(s: Sender) {
    && CursorLaw(s) && s.ackBase == 0 && 0 < s.inflight < s.total < UINT16_VALUES
    && forall c: nat :: c < s.total ==>
         !s.acked[c] && s.lastTx[c] == if c < s.inflight then GUARD_NANOS else 0
  }

  lemma NothingApplied(s: Sender, msg: ControlMessage)
    requires s.Shaped() && msg.cumulative == UINT32_MAX && forall c: nat :: !msg.Claims(c)
    ensures Apply(s, msg) == s
  {
    assert Apply(s, msg).acked == s.acked;
  }

  lemma WalkOfReport(s: Sender, msg: ControlMessage, clock: Clock)
    requires GuardLater(s) && Exact(NoneYet(s.total), msg)
    requires forall k: nat :: clock(k) == GUARD_NANOS
    ensures s.inflight in Walk(Apply(s, msg), Clip(msg.gaps, s.total), 0, GAP_LIMIT, clock).log
  {
    hide Exact;
    hide Walk;
    hide Apply;
    hide Clip;
    NothingReported(s.total, msg);
    NothingApplied(s, msg);
    ClipExpands(msg.gaps, s.total);
    WalkReaches(s, Expand(msg.gaps), 0, s.inflight, GAP_LIMIT, clock);
  }

  lemma InLonger(before: seq<nat>, c: nat, after: seq<nat>)
    requires c in before && before <= after
    ensures c in after
  {
    var i :| 0 <= i < |before| && before[i] == c;
    assert after[i] == c;
  }

  /** Handling that report then transmits the chunk at the edge of the window. */
  lemma EdgeTransmitted(s: Sender, msg: ControlMessage, clock: Clock)
    requires GuardLater(s) && Exact(NoneYet(s.total), msg)
    requires forall k: nat :: clock(k) == GUARD_NANOS
    ensures !Within(HandleNack(s, msg, clock))
  {
    hide Exact;
    hide Walk;
    hide Apply;
    hide Clip;
    hide HandleNack;
    NothingReported(s.total, msg);
    WalkOfReport(s, msg, clock);
    WalkLogKept(s, msg, clock);
    NackHandled(s, msg, clock);
    var r := HandleNack(s, msg, clock);
    InLonger(Walk(Apply(s, msg), Clip(msg.gaps, s.total), 0, GAP_LIMIT, clock).log, s.inflight, r.log);
  }

  /** A start whose first clock reading is a guard time before all others. */
  lemma StartTimes(total: nat, configured: nat, clock: Clock)
    requires 0 < configured < total < UINT16_VALUES
    requires forall k: nat :: clock(k) == if k == 0 then 0 else GUARD_NANOS
    ensures GuardLater(Start(total, configured, clock))
  {
    var unsent := Fresh(total, configured, clock);
    AdvanceReachesEdge(unsent, clock);
    AdvanceTimes(unsent, clock, GUARD_NANOS);
  }

  ghost predicate Begun(m: Outgoing, s: State, sender: Sender)
    requires m.Valid()
  {
    && s.sender == sender && s.mode == Polling && s.connected && !s.finished
    && s.control == [] && s.pump == Resting && s.frontend == NoneYet(m.layout.Chunks())
  }

  lemma Begin(m: Outgoing, s: State, configured: nat, clock: Clock)
    requires m.Valid() && Init(m, s) && s.connected
    ensures Ready(m, s)
    ensures Begun(m, Next(m, s, StartSend(configured, clock)), Start(m.layout.Chunks(), configured, clock))
  {
    assert s.frontend == NoneYet(m.layout.Chunks());
  }

  /** Reported and heard. */
  lemma ReportHeard(m: Outgoing, s: State, sender: Sender, msg: ControlMessage, clock: Clock)
    returns (a: State, b: State, c: State)
    requires m.Valid() && Ready(m, s) && Begun(m, s, sender)
    requires Honest(s.frontend, s.frontend, msg) && msg.kind == SrNack
    ensures a == Next(m, s, PumpStart) && Ready(m, a) && b == Next(m, a, PumpSend(msg)) && Ready(m, b)
    ensures c == Next(m, b, Deliver(0, clock)) && c.sender == HandleNack(sender, msg, clock)
  {
    hide HandleNack;
    hide Honest;
    a := Next(m, s, PumpStart);
    b := Next(m, a, PumpSend(msg));
    c := Next(m, b, Deliver(0, clock));
  }

  lemma NarrowWindow(m: Outgoing, s: State, configured: nat) returns (states: seq<State>, steps: seq<Step>)
    requires m.Valid() && Init(m, s) && s.connected && 0 < configured < m.layout.Chunks()
    ensures Run(m, states, steps) && states[0] == s && Configured(steps, configured)
    ensures !Within(states[|steps|].sender)
  {
    hide Next;
    hide Ready;
    hide Start;
    hide HandleNack;
    hide Honest;
    hide Report;
    hide Within;
    var total := m.layout.Chunks();
    m.layout.HasChunk();
    var startClock: Clock := k => if k == 0 then 0 else GUARD_NANOS;
    var clock: Clock := _ => GUARD_NANOS;
    var sender, msg := Start(total, configured, startClock), Report(NoneYet(total));
    Begin(m, s, configured, startClock);
    StartTimes(total, configured, startClock);
    NothingReported(total, msg);
    var s1 := Next(m, s, StartSend(configured, startClock));
    var s2, s3, s4 := ReportHeard(m, s1, sender, msg, clock);
    EdgeTransmitted(sender, msg, clock);
    states := [s, s1, s2, s3, s4];
    steps := [StartSend(configured, startClock), PumpStart, PumpSend(msg), Deliver(0, clock)];
    assert StepTaken(m, s, steps[0], s1) && StepTaken(m, s1, steps[1], s2);
    assert StepTaken(m, s2, steps[2], s3) && StepTaken(m, s3, steps[3], s4);
  }

  /** On a live connection the window limits what is in flight, in every state of every
      run, exactly when none is configured or one as large as the message. */
  lemma WindowLimitsExactly(m: Outgoing, s: State, configured: nat)
    requires m.Valid() && Init(m, s) && s.connected
    ensures KeepsWindow(m, s, configured) <==> configured == 0 || configured >= m.layout.Chunks()
  {
    hide Init;
    hide Within;
    hide Configured;
    if configured == 0 || configured >= m.layout.Chunks() {
      forall states: seq<State>, steps: seq<Step> |
        Run(m, states, steps) && states[0] == s && Configured(steps, configured)
        ensures AllWithin(states)
      {
        forall i: nat | i < |states| ensures Within(states[i].sender) {
          WideWindow(m, states, steps, configured, i);
        }
      }
    } else {
      var states, steps := NarrowWindow(m, s, configured);
      assert !AllWithin(states);
    }
  }
}
