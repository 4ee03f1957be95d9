/** Which states a state can lead to, and what undisturbed workers and an undisturbed
    poller do in several steps. */
module Reach {
  import opened Geometry
  import opened Wire
  import opened SrSender
  import opened Protocol
  import opened ProtocolSafety
  import opened EndToEnd
  import Receiver

  ghost function Exec(m: Outgoing, s: State, steps: seq<Step>): (t: State)
    requires m.Valid() && Ready(m, s)
    ensures Ready(m, t)
  {
    if steps == [] then s else Next(m, Exec(m, s, steps[..|steps| - 1]), steps[|steps| - 1])
  }

  /** The step reads this clock, if it reads one. */
  ghost predicate OnClock(step: Step, clock: Clock) {
    match step
    case StartSend(_, c) => c == clock
    case Deliver(_, c) => c == clock
    case Timeout(_, c) => c == clock
    case _ => true
  }

  ghost predicate AllOnClock(steps: seq<Step>, clock: Clock) {
    forall i :: 0 <= i < |steps| ==> OnClock(steps[i], clock)
  }

  /** Some steps take the system from s to t, the sender reading one clock all the way. */
  ghost predicate Leads(m: Outgoing, s: State, t: State, clock: Clock)
    requires m.Valid() && Ready(m, s)
  {
    exists steps: seq<Step> :: AllOnClock(steps, clock) && Exec(m, s, steps) == t
  }

  lemma LeadsNowhere(m: Outgoing, s: State, clock: Clock)
    requires m.Valid() && Ready(m, s)
    ensures Leads(m, s, s, clock)
  {
    assert AllOnClock([], clock) && Exec(m, s, []) == s;
  }

  lemma LeadsOn(m: Outgoing, s: State, t: State, step: Step, clock: Clock)
    requires m.Valid() && Ready(m, s) && Ready(m, t) && Leads(m, s, t, clock) && OnClock(step, clock)
    ensures Leads(m, s, Next(m, t, step), clock)
  {
    hide Next;
    hide Ready;
    hide OnClock;
    var steps :| AllOnClock(steps, clock) && Exec(m, s, steps) == t;
    var more := steps + [step];
    assert more[..|steps|] == steps;
    assert AllOnClock(more, clock) && Exec(m, s, more) == Next(m, t, step);
  }

  lemma LeadsOneStep(m: Outgoing, s: State, step: Step, clock: Clock)
    requires m.Valid() && Ready(m, s) && OnClock(step, clock)
    ensures Leads(m, s, Next(m, s, step), clock)
  {
    hide *;
    LeadsNowhere(m, s, clock);
    LeadsOn(m, s, s, step, clock);
  }

  lemma LeadsThen(m: Outgoing, s: State, t: State, u: State, clock: Clock)
    requires m.Valid() && Ready(m, s) && Ready(m, t) && Leads(m, s, t, clock) && Leads(m, t, u, clock)
    ensures Leads(m, s, u, clock)
  {
    hide Next;
    hide Ready;
    hide OnClock;
    var steps :| AllOnClock(steps, clock) && Exec(m, t, steps) == u;
    ThenExec(m, s, t, steps, clock);
  }

  lemma {:induction false} ThenExec(m: Outgoing, s: State, t: State, steps: seq<Step>, clock: Clock)
    requires m.Valid() && Ready(m, s) && Ready(m, t) && Leads(m, s, t, clock) && AllOnClock(steps, clock)
    ensures Leads(m, s, Exec(m, t, steps), clock)
    decreases |steps|
  {
    hide Next;
    hide Ready;
    hide Leads;
    hide OnClock;
    if steps != [] {
      var n := |steps| - 1;
      ThenExec(m, s, t, steps[..n], clock);
      LeadsOn(m, s, Exec(m, t, steps[..n]), steps[n], clock);
    }
  }

  lemma LeadsKeeps(m: Outgoing, s: State, t: State, clock: Clock)
    requires m.Valid() && Ready(m, s) && Inv(m, s) && Leads(m, s, t, clock)
    ensures Inv(m, t) && Ready(m, t) && Grown(s, t)
  {
    hide Inv;
    hide Grown;
    hide Ready;
    hide Next;
    var steps :| AllOnClock(steps, clock) && Exec(m, s, steps) == t;
    ExecKeeps(m, s, steps);
  }

  lemma {:induction false} ExecKeeps(m: Outgoing, s: State, steps: seq<Step>)
    requires m.Valid() && Ready(m, s) && Inv(m, s)
    ensures Inv(m, Exec(m, s, steps)) && Grown(s, Exec(m, s, steps))
    decreases |steps|
  {
    hide Inv;
    hide Grown;
    hide Ready;
    hide Next;
    if steps != [] {
      var n := |steps| - 1;
      ExecKeeps(m, s, steps[..n]);
      var t := Exec(m, s, steps[..n]);
      StepKeeps(m, t, steps[n]);
      StepGrows(m, t, steps[n]);
      GrownThen(s, t, Next(m, t, steps[n]));
    } else {
      GrownSelf(s);
    }
  }

  /** A run goes on to whatever state its last state leads to. */
  lemma RunGoesOn(m: Outgoing, states: seq<State>, steps: seq<Step>, t: State, clock: Clock)
    returns (moreStates: seq<State>, moreSteps: seq<Step>)
    requires m.Valid() && Run(m, states, steps) && Ready(m, states[|steps|]) && Leads(m, states[|steps|], t, clock)
    ensures states <= moreStates && steps <= moreSteps && AllOnClock(moreSteps[|steps|..], clock)
    ensures Run(m, moreStates, moreSteps) && moreStates[|moreSteps|] == t
  {
    hide Next;
    hide Ready;
    hide Init;
    var more :| AllOnClock(more, clock) && Exec(m, states[|steps|], more) == t;
    moreStates, moreSteps := ExtendRun(m, states, steps, more);
    assert moreSteps[|steps|..] == more;
  }

  lemma {:induction false} ExtendRun(m: Outgoing, states: seq<State>, steps: seq<Step>, more: seq<Step>)
    returns (moreStates: seq<State>, moreSteps: seq<Step>)
    requires m.Valid() && Run(m, states, steps) && Ready(m, states[|steps|])
    ensures states <= moreStates && moreSteps == steps + more
    ensures Run(m, moreStates, moreSteps) && moreStates[|moreSteps|] == Exec(m, states[|steps|], more)
    decreases |more|
  {
    hide Next;
    hide Ready;
    hide Init;
    if more == [] {
      moreStates, moreSteps := states, steps;
    } else {
      var n := |more| - 1;
      moreStates, moreSteps := ExtendRun(m, states, steps, more[..n]);
      var t := moreStates[|moreSteps|];
      assert StepTaken(m, t, more[n], Next(m, t, more[n]));
      moreStates, moreSteps := moreStates + [Next(m, t, more[n])], moreSteps + [more[n]];
    }
  }

  // ---- an undisturbed worker ----

  /** The payload from byte k on has been copied to where the packet belongs. */
  ghost predicate Copied(before: seq<byte>, after: seq<byte>, at: nat, payload: seq<byte>, k: nat) {
    && |before| == |after|
    && forall b :: 0 <= b < |before| ==>
         after[b] == if at + k <= b < at + |payload| then payload[b - at] else before[b]
  }

  lemma CopiedIsWritten(m: Outgoing, before: seq<byte>, after: seq<byte>, p: nat)
    requires m.Valid() && p < m.layout.Packets() && |before| == m.layout.length
    requires Copied(before, after, p * m.layout.mtu, m.DataPacket(p).payload, 0)
    ensures after == Receiver.Written(before, m.layout.mtu, p, m.DataPacket(p).payload)
  {
    m.layout.PacketSlice(p);
  }

  /** Only what worker 0 does has happened. */
  ghost predicate WorkerMoved(s: State, t: State, worker: Worker) {
    && 0 < |s.workers|
    && t == s.(buffer := t.buffer, received := t.received, workers := s.workers[0 := worker])
  }

  ghost predicate WritesAt(s: State, packet: Packet, k: nat) {
    0 < |s.workers| && s.workers[0] == Writing(packet, k) && k <= |packet.payload|
  }

  lemma WriteOne(m: Outgoing, s: State, packet: Packet, k: nat)
    requires m.Valid() && Ready(m, s) && WritesAt(s, packet, k) && k < |packet.payload|
    ensures var t := Next(m, s, Write(0));
      && WritesAt(t, packet, k + 1) && WorkerMoved(s, t, Writing(packet, k + 1)) && t.received == s.received
      && var at := packet.header.packetOffset * m.layout.mtu;
         forall after: seq<byte> ::
           Copied(t.buffer, after, at, packet.payload, k + 1) ==> Copied(s.buffer, after, at, packet.payload, k)
  {
  }

  /** Worker 0 finishes copying. */
  lemma {:induction false} WriteAll(m: Outgoing, s: State, packet: Packet, k: nat, clock: Clock) returns (t: State)
    requires m.Valid() && Ready(m, s) && WritesAt(s, packet, k)
    ensures Ready(m, t) && Leads(m, s, t, clock)
    ensures WorkerMoved(s, t, Writing(packet, |packet.payload|)) && t.received == s.received
    ensures Copied(s.buffer, t.buffer, packet.header.packetOffset * m.layout.mtu, packet.payload, k)
    decreases |packet.payload| - k
  {
    hide Ready;
    hide Leads;
    hide Next;
    if k == |packet.payload| {
      LeadsNowhere(m, s, clock);
      t := s;
    } else {
      WriteOne(m, s, packet, k);
      LeadsOneStep(m, s, Write(0), clock);
      var u := Next(m, s, Write(0));
      t := WriteAll(m, u, packet, k + 1, clock);
      LeadsThen(m, s, u, t, clock);
    }
  }

  /** Worker 0 publishes what it has copied. */
  lemma PublishOne(m: Outgoing, s: State, packet: Packet)
    requires m.Valid() && Ready(m, s) && WritesAt(s, packet, |packet.payload|)
    ensures var p, t := packet.header.packetOffset, Next(m, s, Publish(0));
      && WorkerMoved(s, t, Waiting) && t.buffer == s.buffer
      && t.received == if p < m.layout.Packets() then s.received + {p} else s.received
  {
  }

  lemma WriteAndPublish(m: Outgoing, s: State, packet: Packet, k: nat, clock: Clock) returns (t: State)
    requires m.Valid() && Ready(m, s) && WritesAt(s, packet, k)
    ensures Ready(m, t) && Leads(m, s, t, clock) && WorkerMoved(s, t, Waiting)
    ensures Copied(s.buffer, t.buffer, packet.header.packetOffset * m.layout.mtu, packet.payload, k)
    ensures var p := packet.header.packetOffset;
      t.received == if p < m.layout.Packets() then s.received + {p} else s.received
  {
    hide Ready;
    hide Leads;
    hide Next;
    hide Copied;
    var u := WriteAll(m, s, packet, k, clock);
    PublishOne(m, u, packet);
    t := Next(m, u, Publish(0));
    LeadsOn(m, s, u, Publish(0), clock);
  }

  lemma TakeAndCheck(m: Outgoing, s: State, p: nat, clock: Clock) returns (t: State)
    requires m.Valid() && Ready(m, s) && 0 < |s.workers| && s.workers[0] == Waiting
    requires !s.finished && Sent(m, s, p) && p !in s.received
    ensures Ready(m, t) && Leads(m, s, t, clock)
    ensures t == s.(workers := s.workers[0 := Writing(m.DataPacket(p), 0)])
  {
    hide Leads;
    var u := Next(m, s, Take(0, p));
    LeadsOneStep(m, s, Take(0, p), clock);
    t := Next(m, u, Check(0));
    LeadsOn(m, s, u, Check(0), clock);
    assert u.workers[0 := Writing(m.DataPacket(p), 0)] == s.workers[0 := Writing(m.DataPacket(p), 0)];
  }

  /** A packet that was sent can be received: taken, checked, copied and published. The
      steps together do what process_packet does when nobody interferes. */
  lemma ReceiveOne(m: Outgoing, s: State, p: nat, clock: Clock) returns (t: State)
    requires m.Valid() && Ready(m, s) && 0 < |s.workers| && s.workers[0] == Waiting
    requires !s.finished && Sent(m, s, p)
    ensures Ready(m, t) && Leads(m, s, t, clock) && t == s.(buffer := t.buffer, received := s.received + {p})
    ensures t.buffer == if p in s.received then s.buffer
                        else Receiver.Written(s.buffer, m.layout.mtu, p, m.DataPacket(p).payload)
  {
    hide Leads;
    hide Next;
    hide Copied;
    hide Receiver.Written;
    if p in s.received {
      LeadsNowhere(m, s, clock);
      t := s;
      assert s.received + {p} == s.received;
    } else {
      var u := TakeAndCheck(m, s, p, clock);
      t := WriteAndPublish(m, u, m.DataPacket(p), 0, clock);
      LeadsThen(m, s, u, t, clock);
      CopiedIsWritten(m, s.buffer, t.buffer, p);
      assert u.workers[0 := Waiting] == s.workers;
    }
  }

  /** Worker 0 can always finish what it is doing. */
  lemma FreeWorker(m: Outgoing, s: State, clock: Clock) returns (t: State)
    requires m.Valid() && Ready(m, s) && 0 < |s.workers|
    requires s.workers[0].Writing? ==> s.workers[0].written <= |s.workers[0].packet.payload|
    ensures Ready(m, t) && Leads(m, s, t, clock) && WorkerMoved(s, t, Waiting)
  {
    hide Leads;
    match s.workers[0]
    case Waiting =>
      LeadsNowhere(m, s, clock);
      t := s;
    case Arrived(packet) =>
      var u := Next(m, s, Check(0));
      LeadsOneStep(m, s, Check(0), clock);
      if u.workers[0] == Waiting {
        t := u;
      } else {
        t := WriteAndPublish(m, u, packet, 0, clock);
        LeadsThen(m, s, u, t, clock);
        assert u.workers[0 := Waiting] == s.workers[0 := Waiting];
      }
    case Writing(packet, k) =>
      t := WriteAndPublish(m, s, packet, k, clock);
  }

  ghost predicate GotMore(s: State, t: State) {
    t == s.(buffer := t.buffer, received := t.received) && s.received <= t.received
  }

  /** All packets of a transmitted chunk, from packet p on. */
  lemma {:induction false} ReceiveChunk(m: Outgoing, s: State, c: nat, p: nat, clock: Clock) returns (t: State)
    requires m.Valid() && Ready(m, s) && 0 < |s.workers| && s.workers[0] == Waiting && !s.finished
    requires c < m.layout.Chunks() && c in s.sender.log
    requires ChunkLo(m.layout.ppc, c) <= p <= ChunkHi(m.layout.Packets(), m.layout.ppc, c)
    requires forall q: nat :: ChunkLo(m.layout.ppc, c) <= q < p ==> q in s.received
    ensures Ready(m, t) && Leads(m, s, t, clock) && GotMore(s, t) && ChunkIn(m, t.received, c)
    decreases ChunkHi(m.layout.Packets(), m.layout.ppc, c) - p
  {
    hide Leads;
    hide Next;
    hide Receiver.Written;
    if p == ChunkHi(m.layout.Packets(), m.layout.ppc, c) {
      ChunkComplete(m, s.received, c);
      LeadsNowhere(m, s, clock);
      t := s;
    } else {
      ChunkMembers(m.layout.Packets(), m.layout.ppc, c, p);
      var u := ReceiveOne(m, s, p, clock);
      t := ReceiveChunk(m, u, c, p + 1, clock);
      LeadsThen(m, s, u, t, clock);
    }
  }

  lemma ChunkComplete(m: Outgoing, received: set<nat>, c: nat)
    requires m.Valid() && c < m.layout.Chunks()
    requires forall q: nat ::
      ChunkLo(m.layout.ppc, c) <= q < ChunkHi(m.layout.Packets(), m.layout.ppc, c) ==> q in received
    ensures ChunkIn(m, received, c)
  {
    forall q: nat | q < m.layout.Packets() && ChunkOf(m.layout.ppc, q) == c ensures q in received {
      ChunkMembers(m.layout.Packets(), m.layout.ppc, c, q);
    }
  }

  // ---- an undisturbed poller ----

  ghost predicate OnlyPolled(s: State, t: State) {
    t == s.(frontend := t.frontend, poller := t.poller) && t.poller.sweep == s.poller.sweep
  }

  /** The chunks from `from` on are marked that were marked or are complete; no others are. */
  ghost predicate Polled(m: Outgoing, s: State, frontend: seq<bool>, from: nat)
    requires m.Valid()
  {
    && |frontend| == |s.frontend|
    && forall c: nat :: c < |frontend| ==>
         (frontend[c] <==> s.frontend[c] || (from <= c && ChunkIn(m, s.received, c)))
  }

  ghost function WordsLeft(m: Outgoing, s: State): nat
    requires m.Valid()
  {
    if s.poller.chunk >= m.layout.Chunks() then 0 else
      var gone := FirstWord(m, s.poller.chunk) + s.poller.scanned;
      if gone > LastWord(m, s.poller.chunk) then 0 else LastWord(m, s.poller.chunk) + 1 - gone
  }

  ghost predicate PollerBusy(m: Outgoing, s: State)
    requires m.Valid()
  {
    !s.finished && s.poller.chunk < m.layout.Chunks() == |s.frontend|
  }

  ghost function PollerStep(m: Outgoing, s: State): Step
    requires m.Valid() && PollerBusy(m, s)
  {
    var c := s.poller.chunk;
    if s.frontend[c] then PollSkip
    else if FirstWord(m, c) + s.poller.scanned <= LastWord(m, c) then PollScan else PollMark
  }

  /** A step that leaves a chunk has marked it if it is complete, and nothing else. */
  lemma PollerMarks(m: Outgoing, s: State)
    requires m.Valid() && Ready(m, s) && PollerBusy(m, s) && PollerTrue(m, s)
    ensures var c, t := s.poller.chunk, Next(m, s, PollerStep(m, s));
      t.frontend == if t.poller.chunk == c then s.frontend
                    else s.frontend[c := s.frontend[c] || ChunkIn(m, s.received, c)]
  {
    var c := s.poller.chunk;
    if PollerStep(m, s) == PollMark {
      ScanComplete(m, s.received, c, s.poller.scanned);
    } else if PollerStep(m, s) == PollScan && ChunkIn(m, s.received, c) {
      ChunkInWordFull(m, s.received, c, FirstWord(m, c) + s.poller.scanned);
    }
  }

  lemma PollerMoves(m: Outgoing, s: State)
    requires m.Valid() && Ready(m, s) && PollerBusy(m, s)
    ensures var t := Next(m, s, PollerStep(m, s));
      && OnlyPolled(s, t)
      && (t.poller.chunk == s.poller.chunk + 1 ||
           (t.poller.chunk == s.poller.chunk && WordsLeft(m, t) < WordsLeft(m, s)))
  {
  }

  lemma PollerPart(m: Outgoing, s: State)
    requires m.Valid() && Inv(m, s)
    ensures PollerTrue(m, s) && |s.frontend| == m.layout.Chunks() && s.poller.chunk <= m.layout.Chunks()
  {
  }

  lemma PolledThen(m: Outgoing, s: State, u: State, frontend: seq<bool>)
    requires m.Valid() && s.poller.chunk < |s.frontend| && OnlyPolled(s, u)
    requires var c := s.poller.chunk;
      u.frontend == if u.poller.chunk == c then s.frontend
                    else s.frontend[c := s.frontend[c] || ChunkIn(m, s.received, c)]
    requires u.poller.chunk == s.poller.chunk || u.poller.chunk == s.poller.chunk + 1
    requires Polled(m, u, frontend, u.poller.chunk)
    ensures Polled(m, s, frontend, s.poller.chunk)
  {
    hide ChunkIn;
  }

  /** The poller, wherever it is, gets to the end of its pass. Its steps together do what
      update_chunk_bitmap does when nobody interferes. */
  lemma {:induction false} FinishPass(m: Outgoing, s: State, clock: Clock) returns (t: State)
    requires m.Valid() && Ready(m, s) && Inv(m, s) && !s.finished
    ensures Ready(m, t) && Leads(m, s, t, clock)
    ensures OnlyPolled(s, t) && t.poller.chunk == m.layout.Chunks()
    ensures Polled(m, s, t.frontend, s.poller.chunk)
    decreases m.layout.Chunks() - s.poller.chunk, WordsLeft(m, s)
  {
    hide Inv;
    hide Leads;
    hide Ready;
    hide Next;
    hide PollerTrue;
    hide ChunkIn;
    hide WordsLeft;
    PollerPart(m, s);
    if s.poller.chunk == m.layout.Chunks() {
      LeadsNowhere(m, s, clock);
      t := s;
    } else {
      var step := PollerStep(m, s);
      PollerMoves(m, s);
      PollerMarks(m, s);
      StepKeeps(m, s, step);
      LeadsOneStep(m, s, step, clock);
      var u := Next(m, s, step);
      PollerPart(m, u);
      t := FinishPass(m, u, clock);
      LeadsThen(m, s, u, t, clock);
      PolledThen(m, s, u, t.frontend);
    }
  }

  ghost predicate CaughtUp(m: Outgoing, s: State, frontend: seq<bool>)
    requires m.Valid()
  {
    && |frontend| == |s.frontend| == m.layout.Chunks()
    && forall c: nat :: c < |frontend| && ChunkIn(m, s.received, c) ==> frontend[c]
  }

  lemma Restart(m: Outgoing, s: State)
    requires m.Valid() && Ready(m, s) && !s.finished && s.poller.chunk == m.layout.Chunks()
    ensures var t := Next(m, s, PollAgain);
      t == s.(poller := t.poller) && t.poller.chunk == 0
  {
  }

  /** After the pass under way and one more, every complete chunk is marked. */
  lemma CatchUp(m: Outgoing, s: State, clock: Clock) returns (t: State)
    requires m.Valid() && Ready(m, s) && Inv(m, s) && !s.finished
    ensures Ready(m, t) && Leads(m, s, t, clock) && t == s.(frontend := t.frontend, poller := t.poller)
    ensures CaughtUp(m, s, t.frontend)
  {
    hide Inv;
    hide Leads;
    hide Ready;
    hide Next;
    hide ChunkIn;
    PollerPart(m, s);
    var u := FinishPass(m, s, clock);
    Restart(m, u);
    LeadsOn(m, s, u, PollAgain, clock);
    var v := Next(m, u, PollAgain);
    LeadsKeeps(m, s, v, clock);
    t := FinishPass(m, v, clock);
    LeadsThen(m, s, v, t, clock);
  }
}
