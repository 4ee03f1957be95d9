/** SRSender as the object it is: loops over its fields, each proved to be the
    function of the state that the protocol proof reasons about. */
module SrSenderObject {
  import opened WordBits
  import opened Geometry
  import opened Control
  import opened Wire
  import opened SrSender
  import opened SenderLaws

  /** What one turn of the poll loop decides. */
  datatype Verdict = Continue | Return(rc: int) | AwaitCompletion

  /** The packets of a list of chunks, one chunk after the other. */
  ghost function PacketsOf(m: Outgoing, log: seq<nat>): seq<Packet>
    requires m.Valid() && Below(log, m.layout.Chunks())
  {
    if log == [] then [] else
      var n := |log| - 1;
      PacketsOf(m, log[..n]) + m.Chunk(log[n])
  }

  lemma NoPackets(m: Outgoing)
    requires m.Valid()
    ensures PacketsOf(m, []) == []
  {
  }

  /** On the wire there are the packets of the chunks transmitted, and no others. */
  lemma {:induction false} WireHolds(m: Outgoing, log: seq<nat>, p: nat)
    requires m.Valid() && Below(log, m.layout.Chunks()) && p < m.layout.Packets()
    ensures m.DataPacket(p) in PacketsOf(m, log) <==> p / m.layout.ppc in log
  {
    if log != [] {
      var n := |log| - 1;
      WireHolds(m, log[..n], p);
      m.ChunkHolds(log[n], p);
      assert log == log[..n] + [log[n]];
    }
  }

  class SRSender {
    const message: Outgoing
    const clock: Clock
    const rtoMs: nat

    var totalChunks: nat
    var ackBase: nat
    var nextChunkToSend: nat
    var maxInflight: nat
    var chunkAcked: seq<bool>
    var lastTx: seq<int>
    var clockReads: nat
    var wire: seq<Packet>
    var retransmits: nat
    var acksSeen: nat
    var nacksSeen: nat
    ghost var log: seq<nat>

    ghost function State(): Sender
      reads this
    {
      Sender(totalChunks, ackBase, nextChunkToSend, maxInflight, chunkAcked, lastTx, clockReads, log)
    }

    /** The wire holds exactly the packets of the chunks transmitted so far. */
    ghost predicate Valid()
      reads this
    {
      && message.Valid()
      && totalChunks == message.layout.Chunks()
      && State().Shaped()
      && Below(log, totalChunks)
      && wire == PacketsOf(message, log)
      && retransmits == |log|
    }

    /** effective_rto_ms: a configured timeout, or the round trip and its margin. */
    constructor (message: Outgoing, clock: Clock, configuredRto: nat, baseRtt: nat, alpha: nat)
      ensures this.message == message && this.clock == clock
      ensures rtoMs == if configuredRto != 0 then configuredRto else baseRtt + alpha
      ensures wire == [] && log == [] && retransmits == 0
    {
      this.message := message;
      this.clock := clock;
      this.rtoMs := if configuredRto != 0 then configuredRto else baseRtt + alpha;
      totalChunks, ackBase, nextChunkToSend, maxInflight := 0, 0, 0, 0;
      chunkAcked, lastTx, clockReads, wire := [], [], 0, [];
      retransmits, acksSeen, nacksSeen := 0, 0, 0;
      log := [];
    }

    method Now() returns (t: int)
      modifies this`clockReads
      ensures t == clock(old(clockReads)) && clockReads == old(clockReads) + 1
    {
      t := clock(clockReads);
      clockReads := clockReads + 1;
    }

    /** retransmit_range(c, 1). */
    method RetransmitChunk(c: nat)
      requires Valid() && c < totalChunks
      modifies this
      ensures Valid() && State() == Send(old(State()), c, clock)
      ensures acksSeen == old(acksSeen) && nacksSeen == old(nacksSeen)
    {
      var sent := RetransmitOne(message, c);
      wire := wire + sent;
      retransmits := retransmits + 1;
      var now := Now();
      lastTx := lastTx[c := now];
      ghost var before := log;
      log := log + [c];
      assert log[..|log| - 1] == before;
    }

    /** start_send, once the handshake is over: every field is set, then the initial
        window goes out chunk by chunk. */
    method StartSend(maxInflightChunks: nat)
      requires message.Valid() && wire == [] && log == [] && retransmits == 0 && clockReads == 0
      modifies this
      ensures Valid() && State() == Start(message.layout.Chunks(), maxInflightChunks, clock)
      ensures CursorLaw(State())
      ensures log == Span(0, Min(totalChunks, if maxInflightChunks != 0 then maxInflightChunks else totalChunks))
      ensures nextChunkToSend == |log|
    {
      InitTracking(maxInflightChunks);
      var initialLimit := Min(totalChunks, maxInflight);
      var c := 0;
      while c < initialLimit
        invariant 0 <= c <= initialLimit && nextChunkToSend == c && ackBase == 0
        invariant Valid() && initialLimit == Min(totalChunks, maxInflight)
        invariant forall i :: 0 <= i < totalChunks ==> !chunkAcked[i]
        invariant Advance(State(), clock) == Start(message.layout.Chunks(), maxInflightChunks, clock)
      {
        RetransmitChunk(c);
        nextChunkToSend := c + 1;
        c := c + 1;
      }
      StartCursor(totalChunks, maxInflightChunks, clock);
      message.layout.HasChunk();
      StartSends(totalChunks, maxInflightChunks, clock);
    }

    method InitTracking(maxInflightChunks: nat)
      requires message.Valid() && wire == [] && log == [] && retransmits == 0 && clockReads == 0
      modifies this
      ensures Valid() && State() == Fresh(message.layout.Chunks(), maxInflightChunks, clock)
    {
      hide PacketsOf;
      NoPackets(message);
      totalChunks := CountChunks();
      chunkAcked := seq(totalChunks, _ => false);
      var now := Now();
      lastTx := seq(totalChunks, _ => now);
      var _ := Now();
      ackBase, nextChunkToSend := 0, 0;
      maxInflight := if maxInflightChunks != 0 then maxInflightChunks else totalChunks % UINT16_VALUES;
      if maxInflight == 0 {
        maxInflight := totalChunks % UINT16_VALUES;
      }
    }

    method CountChunks() returns (chunks: nat)
      requires message.Valid()
      ensures chunks == message.layout.Chunks()
    {
      var chunkBytes := message.layout.mtu * message.layout.ppc;
      CountsAgree(|message.data|, message.layout.mtu, message.layout.ppc);
      chunks := (|message.data| + chunkBytes - 1) / chunkBytes;
    }

    /** The words of the message, bit by bit. */
    method ApplyBitmap(msg: ControlMessage)
      requires Valid()
      modifies this`chunkAcked
      ensures Valid()
      ensures forall c: nat :: c < totalChunks ==> (chunkAcked[c] <==> old(chunkAcked)[c] || msg.InWords(c))
    {
      hide PacketsOf;
      var w := 0;
      while w < |msg.words| && w < 8
        invariant 0 <= w <= |msg.words| && w <= 8 && Valid()
        invariant forall c: nat :: c < totalChunks ==>
          (chunkAcked[c] <==> old(chunkAcked)[c] || (c < w * WORD_BITS && msg.InWords(c)))
      {
        ApplyWord(msg, w);
        w := w + 1;
      }
    }

    method ApplyWord(msg: ControlMessage, w: nat)
      requires Valid() && w < |msg.words| && w < 8
      modifies this`chunkAcked
      ensures Valid()
      ensures forall c: nat :: c < totalChunks ==>
        (chunkAcked[c] <==> old(chunkAcked)[c] || (w * WORD_BITS <= c < (w + 1) * WORD_BITS && msg.InWords(c)))
    {
      hide PacketsOf;
      var word := msg.words[w];
      var bit := 0;
      while bit < WORD_BITS && w * WORD_BITS + bit < totalChunks
        invariant 0 <= bit <= WORD_BITS && Valid()
        invariant forall c: nat :: c < totalChunks ==>
          (chunkAcked[c] <==> old(chunkAcked)[c] || (w * WORD_BITS <= c < w * WORD_BITS + bit && msg.InWords(c)))
      {
        var chunkId := w * WORD_BITS + bit;
        TestBit(word, bit);
        assert msg.InWords(chunkId) <==> word[bit];
        if And(word, OneHot(bit)) != ZERO_WORD {
          chunkAcked := chunkAcked[chunkId := true];
        }
        bit := bit + 1;
      }
    }

    /** The cumulative prefix of the message. */
    method ApplyPrefix(cumChunk: nat)
      requires Valid()
      modifies this`chunkAcked
      ensures Valid()
      ensures forall c: nat :: c < totalChunks ==>
        (chunkAcked[c] <==> old(chunkAcked)[c] || (cumChunk != UINT32_MAX && c <= cumChunk))
    {
      if cumChunk != UINT32_MAX {
        var c := 0;
        while c <= cumChunk && c < totalChunks
          invariant 0 <= c <= totalChunks && c <= cumChunk + 1 && Valid()
          invariant forall i: nat :: i < totalChunks ==> (chunkAcked[i] <==> old(chunkAcked)[i] || i < c)
        {
          chunkAcked := chunkAcked[c := true];
          c := c + 1;
        }
      }
    }

    /** The part SR_ACK and SR_NACK share. */
    method ApplyReport(msg: ControlMessage)
      requires Valid()
      modifies this`chunkAcked, this`ackBase
      ensures Valid() && State() == Apply(old(State()), msg)
    {
      ApplyBitmap(msg);
      var cumChunk := msg.cumulative;
      if cumChunk != UINT32_MAX && cumChunk + 1 > ackBase {
        ackBase := cumChunk + 1;
      }
      ApplyPrefix(cumChunk);
      assert chunkAcked == Apply(old(State()), msg).acked;
    }

    method RetransmitMissingFromBitmap()
      requires Valid()
      modifies this
      ensures Valid() && State() == RetransmitMissing(old(State()), clock)
      ensures acksSeen == old(acksSeen) && nacksSeen == old(nacksSeen)
    {
      hide PacketsOf;
      hide Sweep;
      ghost var goal := RetransmitMissing(State(), clock);
      var sent: nat := 0;
      var now := Now();
      ghost var s: Sender, left: nat := State(), MISSING_LIMIT;
      var c: nat := 0;
      while c < totalChunks && sent < MISSING_LIMIT
        invariant c <= totalChunks && sent <= MISSING_LIMIT && Valid()
        invariant s == State() && left == MISSING_LIMIT - sent
        invariant Sweep(s, c, left, now, clock) == goal
        invariant acksSeen == old(acksSeen) && nacksSeen == old(nacksSeen)
        decreases totalChunks - c
      {
        SweepStep(s, c, left, now, clock);
        if !chunkAcked[c] && ElapsedMs(now, lastTx[c]) >= GUARD_MS {
          RetransmitChunk(c);
          sent := sent + 1;
          s, left := Send(s, c, clock), left - 1;
        }
        c := c + 1;
      }
      SweepEnd(s, c, left, now, clock);
    }

    method AdvanceCursor()
      requires Valid()
      modifies this
      ensures Valid() && State() == Advance(old(State()), clock)
      ensures acksSeen == old(acksSeen) && nacksSeen == old(nacksSeen)
    {
      while nextChunkToSend < totalChunks && nextChunkToSend < ackBase + maxInflight
        invariant Valid() && Advance(State(), clock) == Advance(old(State()), clock)
        invariant acksSeen == old(acksSeen) && nacksSeen == old(nacksSeen)
        decreases totalChunks - nextChunkToSend
      {
        if !chunkAcked[nextChunkToSend] {
          RetransmitChunk(nextChunkToSend);
        }
        nextChunkToSend := nextChunkToSend + 1;
      }
    }

    /** The body of the gap walk for one chunk. */
    method VisitChunk(c: nat) returns (sent: bool)
      requires Valid() && c < totalChunks
      modifies this
      ensures Valid() && (State(), sent) == Visit(old(State()), c, clock)
      ensures acksSeen == old(acksSeen) && nacksSeen == old(nacksSeen)
    {
      sent := false;
      if !chunkAcked[c] {
        var now := Now();
        if ElapsedMs(now, lastTx[c]) >= GUARD_MS {
          RetransmitChunk(c);
          sent := true;
        }
      }
    }

    /** The inner loop of the gap walk: chunks gs up to endc. */
    method WalkRange(gs: nat, endc: nat, sentBefore: nat) returns (sent: nat)
      requires Valid() && endc <= totalChunks && sentBefore <= GAP_LIMIT
      modifies this
      ensures Valid() && sent <= GAP_LIMIT
      ensures (State(), GAP_LIMIT - sent) == RangeWalk(old(State()), gs, endc, GAP_LIMIT - sentBefore, clock)
      ensures acksSeen == old(acksSeen) && nacksSeen == old(nacksSeen)
    {
      ghost var s: Sender, left: nat := State(), GAP_LIMIT - sentBefore;
      ghost var goal := RangeWalk(s, gs, endc, left, clock);
      sent := sentBefore;
      var c := gs;
      while c < endc && sent < GAP_LIMIT
        invariant gs <= c && sent <= GAP_LIMIT && Valid() && endc <= totalChunks
        invariant s == State() && left == GAP_LIMIT - sent
        invariant RangeWalk(s, c, endc, left, clock) == goal
        invariant acksSeen == old(acksSeen) && nacksSeen == old(nacksSeen)
        decreases endc - c
      {
        RangeWalkStep(s, c, endc, left, clock);
        var now := VisitWithin(c, sent);
        s, left := RangeStep(s, c, left, clock).0, RangeStep(s, c, left, clock).1;
        sent := now;
        c := c + 1;
      }
    }

    method VisitWithin(c: nat, sentBefore: nat) returns (sent: nat)
      requires Valid() && c < totalChunks && sentBefore < GAP_LIMIT
      modifies this
      ensures Valid() && sent <= GAP_LIMIT
      ensures (State(), GAP_LIMIT - sent) == RangeStep(old(State()), c, GAP_LIMIT - sentBefore, clock)
      ensures acksSeen == old(acksSeen) && nacksSeen == old(nacksSeen)
    {
      sent := sentBefore;
      var visited := VisitChunk(c);
      if visited {
        sent := sent + 1;
      }
    }

    /** The outer loop over the gaps of a report. */
    method WalkGaps(gaps: seq<Gap>)
      requires Valid()
      modifies this
      ensures Valid() && State() == Walk(old(State()), Clip(gaps, old(totalChunks)), 0, GAP_LIMIT, clock)
      ensures acksSeen == old(acksSeen) && nacksSeen == old(nacksSeen)
    {
      ghost var s: Sender, left: nat := State(), GAP_LIMIT;
      ghost var goal := GapsWalk(s, gaps, 0, left, clock);
      GapsWalkIsWalk(State(), gaps, 0, GAP_LIMIT, clock, Clip(gaps, totalChunks), 0);
      var sent: nat, i: nat := 0, 0;
      while i < |gaps| && sent < GAP_LIMIT
        invariant 0 <= i <= |gaps| && sent <= GAP_LIMIT && Valid()
        invariant s == State() && left == GAP_LIMIT - sent
        invariant GapsWalk(s, gaps, i, left, clock) == goal
        invariant acksSeen == old(acksSeen) && nacksSeen == old(nacksSeen)
        decreases |gaps| - i
      {
        GapsWalkStep(s, gaps, i, left, clock);
        ghost var after := GapWalk(s, gaps[i], left, clock);
        sent := WalkGap(gaps[i], sent);
        s, left := after.0, after.1;
        i := i + 1;
      }
    }

    method WalkGap(gap: Gap, sentBefore: nat) returns (sent: nat)
      requires Valid() && sentBefore <= GAP_LIMIT
      modifies this
      ensures Valid() && sent <= GAP_LIMIT
      ensures (State(), GAP_LIMIT - sent) == GapWalk(old(State()), gap, GAP_LIMIT - sentBefore, clock)
      ensures acksSeen == old(acksSeen) && nacksSeen == old(nacksSeen)
    {
      var gs := gap.start;
      var endc := Min(gs + gap.len, totalChunks);
      sent := WalkRange(gs, endc, sentBefore);
    }

    /** One control message inside the poll loop. */
    method HandleMessage(msg: ControlMessage) returns (verdict: Verdict)
      requires Valid()
      modifies this
      ensures Valid()
      ensures msg.kind == SrAck ==> State() == HandleAck(old(State()), msg, clock)
      ensures msg.kind == SrNack ==> State() == HandleNack(old(State()), msg, clock)
      ensures msg.kind !in {SrAck, SrNack} ==> State() == old(State())
      ensures verdict == match msg.kind
        case SrAck => if AckIsFinal(msg) then Return(0) else Continue
        case SrNack => Continue
        case CompleteAck => Return(0)
        case IncompleteNack => Return(-1)
        case _ => AwaitCompletion
      ensures acksSeen == old(acksSeen) + if msg.kind in {SrAck, CompleteAck} then 1 else 0
      ensures nacksSeen == old(nacksSeen) + if msg.kind == SrNack then 1 else 0
    {
      hide PacketsOf;
      hide RetransmitMissing;
      hide Advance;
      hide Walk;
      hide Clip;
      hide Apply;
      match msg.kind {
        case SrAck =>
          ApplyReport(msg);
          acksSeen := acksSeen + 1;
          RetransmitMissingFromBitmap();
          AdvanceCursor();
          verdict := if (msg.cumulative + 1) % UINT32_VALUES >= msg.totalChunks then Return(0) else Continue;
        case SrNack =>
          nacksSeen := nacksSeen + 1;
          ApplyReport(msg);
          WalkGaps(msg.gaps);
          RetransmitMissingFromBitmap();
          AdvanceCursor();
          verdict := Continue;
        case CompleteAck =>
          acksSeen := acksSeen + 1;
          verdict := Return(0);
        case IncompleteNack =>
          verdict := Return(-1);
        case _ =>
          verdict := AwaitCompletion;
      }
    }

    /** The timeout path of poll, after sdr_send_poll came back with rc. */
    method AfterTimeout(rc: int) returns (verdict: Verdict)
      requires Valid()
      modifies this
      ensures Valid()
      ensures rc == 0 ==> verdict == Return(0) && State() == old(State())
      ensures rc != 0 ==> verdict == Continue && State() == HandleTimeout(old(State()), rtoMs, clock)
    {
      if rc == 0 {
        return Return(0);
      }
      ghost var goal := HandleTimeout(State(), rtoMs, clock);
      var now := Now();
      var c: nat := 0;
      while c < totalChunks
        invariant c <= totalChunks && Valid()
        invariant Rto(State(), c, now, rtoMs, clock) == goal
      {
        RetransmitLate(c, now);
        c := c + 1;
      }
      verdict := Continue;
    }

    method RetransmitLate(c: nat, now: int)
      requires Valid() && c < totalChunks
      modifies this
      ensures Valid() && State() == Late(old(State()), c, now, rtoMs, clock)
    {
      if !chunkAcked[c] && ElapsedMs(now, lastTx[c]) > rtoMs {
        RetransmitChunk(c);
        lastTx := lastTx[c := now];
      }
    }
  }

  /** The nested loops as functions: one gap, then the gaps from i on. The walk also
      says how much of its budget is left. */
  function RangeWalk(s: Sender, c: nat, endc: nat, budget: nat, clock: Clock): (r: (Sender, nat))
    requires s.Shaped() && endc <= s.total
    ensures r.0.Shaped() && r.0.total == s.total && r.1 <= budget
    decreases endc - c
  {
    if c >= endc || budget == 0 then (s, budget)
    else
      var (visited, left) := RangeStep(s, c, budget, clock);
      RangeWalk(visited, c + 1, endc, left, clock)
  }

  function RangeStep(s: Sender, c: nat, budget: nat, clock: Clock): (r: (Sender, nat))
    requires s.Shaped() && c < s.total && budget > 0
    ensures r.0.Shaped() && r.0.total == s.total && r.1 <= budget
  {
    var visited := Visit(s, c, clock);
    (visited.0, Spend(budget, visited.1))
  }

  lemma RangeWalkStep(s: Sender, c: nat, endc: nat, budget: nat, clock: Clock)
    requires s.Shaped() && c < endc <= s.total && budget > 0
    ensures var (visited, left) := RangeStep(s, c, budget, clock);
      RangeWalk(s, c, endc, budget, clock) == RangeWalk(visited, c + 1, endc, left, clock)
  {
  }

  function GapWalk(s: Sender, gap: Gap, budget: nat, clock: Clock): (r: (Sender, nat))
    requires s.Shaped()
    ensures r.0.Shaped() && r.0.total == s.total && r.1 <= budget
  {
    RangeWalk(s, gap.start, Min(gap.start + gap.len, s.total), budget, clock)
  }

  function GapsWalk(s: Sender, gaps: seq<Gap>, i: nat, budget: nat, clock: Clock): Sender
    requires s.Shaped() && i <= |gaps|
    decreases |gaps| - i
  {
    if i == |gaps| || budget == 0 then s
    else
      var after := GapWalk(s, gaps[i], budget, clock);
      GapsWalk(after.0, gaps, i + 1, after.1, clock)
  }

  lemma GapsWalkStep(s: Sender, gaps: seq<Gap>, i: nat, budget: nat, clock: Clock)
    requires s.Shaped() && i < |gaps| && budget > 0
    ensures var after := GapWalk(s, gaps[i], budget, clock);
      GapsWalk(s, gaps, i, budget, clock) == GapsWalk(after.0, gaps, i + 1, after.1, clock)
  {
  }

  /** The chunks c..endc stand in the list from position `at` on. */
  ghost predicate Listed(todo: seq<nat>, at: nat, c: nat, endc: nat)
    requires c <= endc
  {
    at + (endc - c) <= |todo| && forall k :: at <= k < at + (endc - c) ==> todo[k] == c + (k - at)
  }

  lemma {:induction false} RangeWalkIsWalk(
    s: Sender, c: nat, endc: nat, budget: nat, clock: Clock, todo: seq<nat>, at: nat)
    requires s.Shaped() && c <= endc <= s.total && Below(todo, s.total) && Listed(todo, at, c, endc)
    ensures var after := RangeWalk(s, c, endc, budget, clock);
      Walk(s, todo, at, budget, clock) == Walk(after.0, todo, at + (endc - c), after.1, clock)
    decreases endc - c
  {
    hide Visit;
    if c < endc && budget != 0 {
      assert todo[at] == c;
      var visited := Visit(s, c, clock);
      RangeWalkIsWalk(visited.0, c + 1, endc, Spend(budget, visited.1), clock, todo, at + 1);
    }
  }

  /** The nested loops walk the flattened, clipped list of chunks. */
  lemma {:induction false} GapsWalkIsWalk(
    s: Sender, gaps: seq<Gap>, i: nat, budget: nat, clock: Clock, todo: seq<nat>, at: nat)
    requires s.Shaped() && i <= |gaps| && Below(todo, s.total)
    requires at <= |todo| && todo[at..] == Clip(gaps[i..], s.total)
    ensures GapsWalk(s, gaps, i, budget, clock) == Walk(s, todo, at, budget, clock)
    decreases |gaps| - i
  {
    hide RangeWalk;
    if i == |gaps| {
      assert |todo[at..]| == 0;
    } else if budget != 0 {
      var gs, endc := gaps[i].start, Min(gaps[i].start + gaps[i].len, s.total);
      var after := RangeWalk(s, gs, endc, budget, clock);
      var next := ClipStep(gaps, i, s.total, todo, at);
      GapWalkIsWalk(s, gs, endc, budget, clock, todo, at, next);
      GapsWalkIsWalk(after.0, gaps, i + 1, after.1, clock, todo, next);
    }
  }

  lemma GapWalkIsWalk(s: Sender, gs: nat, endc: nat, budget: nat, clock: Clock, todo: seq<nat>, at: nat, next: nat)
    requires s.Shaped() && endc <= s.total && Below(todo, s.total) && at <= next <= |todo|
    requires ListedGap(todo, at, gs, endc, next)
    ensures var after := RangeWalk(s, gs, endc, budget, clock);
      Walk(s, todo, at, budget, clock) == Walk(after.0, todo, next, after.1, clock)
  {
    if gs < endc {
      RangeWalkIsWalk(s, gs, endc, budget, clock, todo, at);
    }
  }

  ghost predicate ListedGap(todo: seq<nat>, at: nat, gs: nat, endc: nat, next: nat) {
    if gs < endc then Listed(todo, at, gs, endc) && next == at + (endc - gs) else next == at
  }

  lemma ClipStep(gaps: seq<Gap>, i: nat, total: nat, todo: seq<nat>, at: nat) returns (next: nat)
    requires i < |gaps| && at <= |todo| && todo[at..] == Clip(gaps[i..], total)
    ensures at <= next <= |todo| && todo[next..] == Clip(gaps[i + 1..], total)
    ensures ListedGap(todo, at, gaps[i].start, Min(gaps[i].start + gaps[i].len, total), next)
  {
    var gs, end := gaps[i].start, Min(gaps[i].End(), total);
    var rest := Clip(gaps[i + 1..], total);
    assert gaps[i..][0] == gaps[i] && gaps[i..][1..] == gaps[i + 1..];
    if gs >= end {
      return at;
    }
    assert todo[at..] == Span(gs, end) + rest;
    forall k | at <= k < at + (end - gs) ensures todo[k] == gs + (k - at) {
      assert todo[k] == todo[at..][k - at];
    }
    next := at + (end - gs);
    assert todo[next..] == todo[at..][end - gs..];
  }
}
