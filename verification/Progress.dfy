/** Rounds of the protocol make progress: each one shrinks the set of missing chunks. */
module Progress {
  import opened Geometry
  import opened Control
  import opened Wire
  import opened SrSender
  import opened SrReceiver
  import opened Protocol
  import opened ProtocolSafety
  import opened EndToEnd

  ghost function MissingSet(done: seq<bool>): set<nat> {
    set c: nat | c < |done| && !done[c]
  }

  /** An ascending list of n missing chunks, all complete later: n fewer are missing. */
  lemma FewerMissing(before: seq<bool>, after: seq<bool>, resent: seq<nat>)
    requires |before| == |after| && forall c :: 0 <= c < |before| && before[c] ==> after[c]
    requires Ascending(resent)
    requires forall i :: 0 <= i < |resent| ==> resent[i] < |before| && !before[resent[i]] && after[resent[i]]
    ensures |MissingSet(after)| + |resent| <= |MissingSet(before)|
  {
    var chunks := Chunks(resent);
    ChunksCount(resent);
    CardinalitySum(MissingSet(after), chunks, MissingSet(before));
  }

  ghost function Chunks(s: seq<nat>): set<nat> {
    set i | 0 <= i < |s| :: s[i]
  }

  lemma {:induction false} ChunksCount(s: seq<nat>)
    requires Ascending(s)
    ensures |Chunks(s)| == |s|
  {
    if s != [] {
      var n := |s| - 1;
      ChunksCount(s[..n]);
      assert Chunks(s) == Chunks(s[..n]) + {s[n]};
      assert s[n] !in Chunks(s[..n]);
    }
  }

  lemma CardinalitySum(a: set<nat>, b: set<nat>, whole: set<nat>)
    requires a !! b && a + b <= whole
    ensures |a| + |b| <= |whole|
  {
    Smaller(a + b, whole);
  }

  lemma {:induction false} Smaller(a: set<nat>, whole: set<nat>)
    requires a <= whole
    ensures |a| <= |whole|
  {
    if a != {} {
      var x :| x in a;
      Smaller(a - {x}, whole - {x});
    }
  }

  /** Pump began in state a and sent the report msg by step b. */
  ghost predicate Reported(m: Outgoing, states: seq<State>, steps: seq<Step>, a: nat, b: nat, msg: ControlMessage)
    requires m.Valid()
  {
    && a < b < |steps| < |states|
    && steps[a] == PumpStart && Enabled(m, states[a], PumpStart)
    && (forall k :: a < k < b ==> !steps[k].PumpSend?)
    && steps[b] == PumpSend(msg) && Enabled(m, states[b], steps[b])
  }

  /** Whatever the poller did meanwhile, the report names only chunks that were missing
      when pump began, in order. */
  lemma ReportOwes(m: Outgoing, states: seq<State>, steps: seq<Step>, a: nat, b: nat, msg: ControlMessage)
    requires m.Valid() && Run(m, states, steps) && Reported(m, states, steps, a, b, msg)
    ensures OwesTo(states[a].frontend, msg)
  {
    hide Honest;
    PumpStays(m, states, steps, a, b);
    HonestOwes(states[a].frontend, states[b].frontend, msg);
  }

  lemma HonestOwes(before: seq<bool>, after: seq<bool>, msg: ControlMessage)
    requires Honest(before, after, msg)
    ensures OwesTo(before, msg)
  {
  }

  /** A NACK built while the bitmap is at rest names at least one gap. */
  lemma RestNamesAGap(done: seq<bool>, msg: ControlMessage)
    requires Exact(done, msg) && !AllDone(done, 0, |done|)
    ensures msg.kind == SrNack && Expand(msg.gaps) != [] && OwesTo(done, msg)
  {
    GapNotEmpty(msg.gaps, done);
  }

  /** The sender is about to handle an SR_NACK that names at least one gap, and a guard time
      has passed for every chunk it names. The report is owed to the bitmap `before`; what
      has been received or marked since does not matter. */
  ghost predicate RoundBegins(m: Outgoing, before: seq<bool>, s: State, step: Step)
    requires m.Valid()
  {
    && step.Deliver? && Enabled(m, s, step) && s.mode == Polling && s.sender.Shaped()
    && s.control[0].kind == SrNack && OwesTo(before, s.control[0]) && Expand(s.control[0].gaps) != []
    && AllRipe(Apply(s.sender, s.control[0]), Expand(s.control[0].gaps), step.clock)
  }

  /** What the sender had transmitted in state s has arrived, and the poller has caught up. */
  ghost predicate RoundEnds(m: Outgoing, s: State, t: State)
    requires m.Valid()
  {
    && (forall c :: c in s.sender.log ==> ChunkIn(m, t.received, c))
    && (forall c: nat :: c < |t.frontend| && ChunkIn(m, t.received, c) ==> t.frontend[c])
  }

  /** From where pump began, in state a, to where the round ends, in state j, at least one
      chunk, and as many as the gap walk may resend, has gone from the missing. */
  lemma RoundShrinks(m: Outgoing, states: seq<State>, steps: seq<Step>, a: nat, i: nat, j: nat)
    requires m.Valid() && Run(m, states, steps) && a <= i < j < |states|
    requires RoundBegins(m, states[a].frontend, states[i], steps[i]) && RoundEnds(m, states[i + 1], states[j])
    ensures var resent := Min(GAP_LIMIT, |Expand(states[i].control[0].gaps)|);
      && 0 < resent
      && |MissingSet(states[j].frontend)| + resent <= |MissingSet(states[a].frontend)|
  {
    hide RoundEnds;
    hide Inv;
    GapsAreNeverAcked(m, states, steps, i, steps[i].clock);
    RunGrows(m, states, steps, a, j);
    assert StepTaken(m, states[i], steps[i], states[i + 1]);
    RoundResends(m, states[a].frontend, states[i], steps[i], states[i + 1], states[j]);
  }

  lemma RoundResends(m: Outgoing, before: seq<bool>, s: State, step: Step, next: State, t: State)
    requires m.Valid() && Ready(m, s) && RoundBegins(m, before, s, step) && next == Next(m, s, step)
    requires GapsAnswered(s.sender, s.control[0], step.clock) && RoundEnds(m, next, t)
    requires |before| == |t.frontend| && forall c :: 0 <= c < |before| && before[c] ==> t.frontend[c]
    ensures var resent := Min(GAP_LIMIT, |Expand(s.control[0].gaps)|);
      && 0 < resent
      && |MissingSet(t.frontend)| + resent <= |MissingSet(before)|
  {
    hide RoundEnds;
    hide Next;
    hide GapsAnswered;
    hide MissingSet;
    var todo := Expand(s.control[0].gaps);
    var resent := todo[..Min(GAP_LIMIT, |todo|)];
    RoundTransmits(m, before, s, step, next);
    NamedMissing(before, s.control[0], resent);
    ResentArrived(m, s, next, t, resent);
    FewerMissing(before, t.frontend, resent);
  }

  lemma RoundTransmits(m: Outgoing, before: seq<bool>, s: State, step: Step, next: State)
    requires m.Valid() && Ready(m, s) && RoundBegins(m, before, s, step) && next == Next(m, s, step)
    requires GapsAnswered(s.sender, s.control[0], step.clock)
    ensures var todo := Expand(s.control[0].gaps);
      s.sender.log + todo[..Min(GAP_LIMIT, |todo|)] <= next.sender.log
  {
    hide HandleNack;
    hide Walk;
    hide AllRipe;
    hide OwesTo;
  }

  lemma NamedMissing(before: seq<bool>, msg: ControlMessage, resent: seq<nat>)
    requires OwesTo(before, msg) && resent <= Expand(msg.gaps)
    ensures Ascending(resent)
    ensures forall k :: 0 <= k < |resent| ==> resent[k] < |before| && !before[resent[k]]
  {
    forall k | 0 <= k < |resent| ensures resent[k] < |before| && !before[resent[k]] {
      assert resent[k] == Expand(msg.gaps)[k] && resent[k] in Expand(msg.gaps);
      assert GapMissing(before, msg, resent[k]);
    }
  }

  lemma ResentArrived(m: Outgoing, s: State, next: State, t: State, resent: seq<nat>)
    requires m.Valid() && s.sender.log + resent <= next.sender.log && RoundEnds(m, next, t)
    requires forall k :: 0 <= k < |resent| ==> resent[k] < |t.frontend|
    ensures forall k :: 0 <= k < |resent| ==> t.frontend[resent[k]]
  {
    forall k | 0 <= k < |resent| ensures t.frontend[resent[k]] {
      assert next.sender.log[|s.sender.log| + k] == resent[k];
      assert ChunkIn(m, t.received, resent[k]);
    }
  }

  /** Round k: pump begins in state begun[k], its report is heard by step heard[k], and the
      round has ended before pump begins the next one. */
  ghost predicate RoundAt(
    m: Outgoing, states: seq<State>, steps: seq<Step>, begun: seq<nat>, heard: seq<nat>, k: nat)
    requires m.Valid()
  {
    && k < |heard| && k + 1 < |begun| && begun[k] <= heard[k] < begun[k + 1] < |states| && heard[k] < |steps|
    && RoundBegins(m, states[begun[k]].frontend, states[heard[k]], steps[heard[k]])
    && RoundEnds(m, states[heard[k] + 1], states[begun[k + 1]])
  }

  /** After n rounds at least n chunks fewer are missing; there are no more rounds than
      chunks, and the transfer is over when they are used up. */
  lemma {:induction false} RoundsAreBounded(
    m: Outgoing, states: seq<State>, steps: seq<Step>, begun: seq<nat>, heard: seq<nat>, n: nat)
    requires m.Valid() && Run(m, states, steps) && n < |begun| && begun[n] < |states|
    requires forall k :: 0 <= k < n ==> RoundAt(m, states, steps, begun, heard, k)
    ensures var last := states[begun[n]];
      && |MissingSet(last.frontend)| + n <= m.layout.Chunks()
      && (n == m.layout.Chunks() ==> AllDone(last.frontend, 0, |last.frontend|))
  {
    hide RoundBegins;
    hide RoundEnds;
    if n == 0 {
      ChunkCount(m, states, steps, begun[0]);
      MissingBound(states[begun[0]].frontend);
    } else {
      assert RoundAt(m, states, steps, begun, heard, n - 1);
      RoundsAreBounded(m, states, steps, begun, heard, n - 1);
      RoundShrinks(m, states, steps, begun[n - 1], heard[n - 1], begun[n]);
    }
    NoneMissing(states[begun[n]].frontend);
  }

  lemma NoneMissing(done: seq<bool>)
    ensures |MissingSet(done)| == 0 <==> AllDone(done, 0, |done|)
  {
    if |MissingSet(done)| == 0 {
      forall c: nat | c < |done| ensures done[c] {
        assert c !in MissingSet(done);
      }
    } else {
      var c :| c in MissingSet(done);
      assert !done[c];
    }
  }

  lemma ChunkCount(m: Outgoing, states: seq<State>, steps: seq<Step>, i: nat)
    requires m.Valid() && Run(m, states, steps) && i < |states|
    ensures |states[i].frontend| == m.layout.Chunks()
  {
    RunKeeps(m, states, steps, i);
  }

  lemma {:induction false} MissingBound(done: seq<bool>)
    ensures |MissingSet(done)| <= |done|
  {
    if done != [] {
      var n := |done| - 1;
      MissingBound(done[..n]);
      assert MissingSet(done) <= MissingSet(done[..n]) + {n};
      Smaller(MissingSet(done), MissingSet(done[..n]) + {n});
    }
  }

  lemma GapNotEmpty(gaps: seq<Gap>, done: seq<bool>)
    requires Runs(gaps, done) && gaps != []
    ensures Expand(gaps) != []
  {
  }
}
