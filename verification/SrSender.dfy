/** The sender half of Selective Repeat: what each control message, timeout and start
    does to the sender, as functions of its state. */
module SrSender {
  import opened Geometry
  import opened Control
  import opened Wire

  /** clock(k) is the k-th time the sender reads steady_clock, in nanoseconds. */
  type Clock = nat -> int

  const GUARD_MS: int := 50
  const GAP_LIMIT: nat := 8
  const MISSING_LIMIT: nat := 4
  const NANOS_PER_MS: int := 1_000_000
  const GUARD_NANOS: int := GUARD_MS * NANOS_PER_MS

  /** duration_cast truncates toward zero. */
  function ElapsedMs(now: int, last: int): int {
    if last <= now then (now - last) / NANOS_PER_MS else -((last - now) / NANOS_PER_MS)
  }

  /** The fields of SRSender, how often it has read the clock, and the chunks it has
      transmitted, in order. */
  datatype Sender = Sender(
    total: nat, ackBase: nat, next: nat, inflight: nat,
    acked: seq<bool>, lastTx: seq<int>, tick: nat, log: seq<nat>)
  {
    predicate Shaped() {
      |acked| == total && |lastTx| == total
    }
  }

  // ---- what the sender does, as functions ----

  /** retransmit_range(c, 1). */
  function Send(s: Sender, c: nat, clock: Clock): (r: Sender)
    requires s.Shaped() && c < s.total
    ensures r.Shaped() && r.total == s.total
  {
    s.(lastTx := s.lastTx[c := clock(s.tick)], tick := s.tick + 1, log := s.log + [c])
  }

  /** The acknowledgements of a report: bitmap words, cumulative prefix, ack_base_. */
  function Apply(s: Sender, msg: ControlMessage): (r: Sender)
    requires s.Shaped()
    ensures r.Shaped() && r.total == s.total
  {
    s.(acked := seq(s.total, c requires 0 <= c < s.total => s.acked[c] || msg.Claims(c)),
       ackBase := if msg.cumulative != UINT32_MAX then Max(s.ackBase, msg.cumulative + 1) else s.ackBase)
  }

  /** One reported chunk: skipped when acked, skipped after a look at the clock when
      transmitted too recently, transmitted otherwise. */
  function Visit(s: Sender, c: nat, clock: Clock): (r: (Sender, bool))
    requires s.Shaped() && c < s.total
    ensures r.0.Shaped() && r.0.total == s.total
  {
    if s.acked[c] then (s, false)
    else
      var checked := s.(tick := s.tick + 1);
      if ElapsedMs(clock(s.tick), s.lastTx[c]) < GUARD_MS then (checked, false)
      else (Send(checked, c, clock), true)
  }

  function Spend(budget: nat, sent: bool): nat
    requires budget > 0
  {
    if sent then budget - 1 else budget
  }

  /** The walk over reported chunks from index i on, at most `budget` transmissions. */
  function Walk(s: Sender, todo: seq<nat>, i: nat, budget: nat, clock: Clock): (r: Sender)
    requires s.Shaped() && Below(todo, s.total) && i <= |todo|
    ensures r.Shaped() && r.total == s.total
    decreases |todo| - i
  {
    if i == |todo| || budget == 0 then s
    else
      var visited := Visit(s, todo[i], clock);
      Walk(visited.0, todo, i + 1, Spend(budget, visited.1), clock)
  }

  /** retransmit_missing_from_bitmap from chunk c on, with its single clock reading. */
  function Sweep(s: Sender, c: nat, budget: nat, now: int, clock: Clock): (r: Sender)
    requires s.Shaped() && c <= s.total
    ensures r.Shaped() && r.total == s.total
    decreases s.total - c
  {
    if c == s.total || budget == 0 then s
    else if s.acked[c] || ElapsedMs(now, s.lastTx[c]) < GUARD_MS then Sweep(s, c + 1, budget, now, clock)
    else Sweep(Send(s, c, clock), c + 1, budget - 1, now, clock)
  }

  function RetransmitMissing(s: Sender, clock: Clock): (r: Sender)
    requires s.Shaped()
    ensures r.Shaped() && r.total == s.total
  {
    Sweep(s.(tick := s.tick + 1), 0, MISSING_LIMIT, clock(s.tick), clock)
  }

  /** The cursor moves to the window's edge, transmitting what is not yet acked. */
  function Advance(s: Sender, clock: Clock): (r: Sender)
    requires s.Shaped()
    ensures r.Shaped() && r.total == s.total
    decreases s.total - s.next
  {
    if s.next < s.total && s.next < s.ackBase + s.inflight then
      var sent := if s.acked[s.next] then s else Send(s, s.next, clock);
      Advance(sent.(next := s.next + 1), clock)
    else s
  }

  /** The chunks of a gap list, in order, cut at the sender's own chunk count. */
  function Clip(gaps: seq<Gap>, total: nat): (r: seq<nat>)
    ensures Below(r, total)
  {
    if gaps == [] then [] else
      var end := Min(gaps[0].End(), total);
      (if gaps[0].start < end then Span(gaps[0].start, end) else []) + Clip(gaps[1..], total)
  }

  function HandleNack(s: Sender, msg: ControlMessage, clock: Clock): (r: Sender)
    requires s.Shaped()
    ensures r.Shaped() && r.total == s.total
  {
    var applied := Apply(s, msg);
    Advance(RetransmitMissing(Walk(applied, Clip(msg.gaps, s.total), 0, GAP_LIMIT, clock), clock), clock)
  }

  function HandleAck(s: Sender, msg: ControlMessage, clock: Clock): (r: Sender)
    requires s.Shaped()
    ensures r.Shaped() && r.total == s.total
  {
    Advance(RetransmitMissing(Apply(s, msg), clock), clock)
  }

  /** `cum_chunk + 1 >= total_chunks` in 32-bit arithmetic. */
  predicate AckIsFinal(msg: ControlMessage) {
    (msg.cumulative + 1) % UINT32_VALUES >= msg.totalChunks
  }

  /** The timeout path after an unsuccessful sdr_send_poll, from chunk c on. */
  function Rto(s: Sender, c: nat, now: int, rtoMs: nat, clock: Clock): (r: Sender)
    requires s.Shaped() && c <= s.total
    ensures r.Shaped() && r.total == s.total
    decreases s.total - c
  {
    if c == s.total then s else Rto(Late(s, c, now, rtoMs, clock), c + 1, now, rtoMs, clock)
  }

  function Late(s: Sender, c: nat, now: int, rtoMs: nat, clock: Clock): (r: Sender)
    requires s.Shaped() && c < s.total
    ensures r.Shaped() && r.total == s.total
  {
    if s.acked[c] || ElapsedMs(now, s.lastTx[c]) <= rtoMs then s
    else
      var sent := Send(s, c, clock);
      sent.(lastTx := sent.lastTx[c := now])
  }

  function HandleTimeout(s: Sender, rtoMs: nat, clock: Clock): (r: Sender)
    requires s.Shaped()
    ensures r.Shaped() && r.total == s.total
  {
    Rto(s.(tick := s.tick + 1), 0, clock(s.tick), rtoMs, clock)
  }

  /** max_inflight_: zero in the configuration means no limit. */
  function Window(total: nat, configured: nat): nat {
    if configured != 0 then configured else total % UINT16_VALUES
  }

  function Fresh(total: nat, configured: nat, clock: Clock): Sender {
    Sender(total, 0, 0, Window(total, configured), seq(total, _ => false), seq(total, _ => clock(0)), 2, [])
  }

  /** start_send: the initial window. */
  function Start(total: nat, configured: nat, clock: Clock): (r: Sender)
    ensures r.Shaped() && r.total == total
  {
    Advance(Fresh(total, configured, clock), clock)
  }

  // ---- one step of a loop at a time ----

  lemma SweepStep(s: Sender, c: nat, budget: nat, now: int, clock: Clock)
    requires s.Shaped() && c < s.total && budget > 0
    ensures Sweep(s, c, budget, now, clock) ==
      if s.acked[c] || ElapsedMs(now, s.lastTx[c]) < GUARD_MS then Sweep(s, c + 1, budget, now, clock)
      else Sweep(Send(s, c, clock), c + 1, budget - 1, now, clock)
  {
  }

  lemma SweepEnd(s: Sender, c: nat, budget: nat, now: int, clock: Clock)
    requires s.Shaped() && c <= s.total && (c == s.total || budget == 0)
    ensures Sweep(s, c, budget, now, clock) == s
  {
  }

  lemma WalkEnd(s: Sender, todo: seq<nat>, i: nat, budget: nat, clock: Clock)
    requires s.Shaped() && Below(todo, s.total) && i <= |todo| && (i == |todo| || budget == 0)
    ensures Walk(s, todo, i, budget, clock) == s
  {
  }

  // ---- the cursor law ----

  /** Between control messages the cursor is at the window's edge, everything below
      ack_base_ is acked, and everything below the cursor is acked or transmitted. */
  ghost predicate CursorLaw(s: Sender) {
    && CursorBounds(s)
    && s.next == Min(s.total, s.ackBase + s.inflight)
  }

  ghost predicate CursorBounds(s: Sender) {
    && s.Shaped()
    && s.next <= Min(s.total, s.ackBase + s.inflight)
    && (forall c :: 0 <= c < s.total && c < s.ackBase ==> s.acked[c])
    && (forall c: nat :: c < s.next ==> s.acked[c] || c in s.log)
    && (forall c :: c in s.log ==> c < s.total)
  }

  /** A step of the sender: it forgets no acknowledgement and no transmission. */
  ghost predicate Follows(s: Sender, r: Sender) {
    && s.Shaped() && r.Shaped()
    && r.total == s.total && r.inflight == s.inflight
    && s.ackBase <= r.ackBase && s.next <= r.next && s.log <= r.log
    && (forall c :: 0 <= c < s.total && s.acked[c] ==> r.acked[c])
  }

  /** Follows, with no acknowledgement gained. */
  ghost predicate Transmits(s: Sender, r: Sender) {
    Follows(s, r) && r.acked == s.acked && r.ackBase == s.ackBase
  }

  lemma SendTransmits(s: Sender, c: nat, clock: Clock)
    requires CursorBounds(s) && c < s.total
    ensures var r := Send(s, c, clock); Transmits(s, r) && CursorBounds(r) && r.next == s.next
  {
  }

  lemma VisitTransmits(s: Sender, c: nat, clock: Clock)
    requires CursorBounds(s) && c < s.total
    ensures var r := Visit(s, c, clock).0; Transmits(s, r) && CursorBounds(r) && r.next == s.next
  {
    SendTransmits(s.(tick := s.tick + 1), c, clock);
  }

  lemma {:induction false} WalkTransmits(s: Sender, todo: seq<nat>, i: nat, budget: nat, clock: Clock)
    requires CursorBounds(s) && Below(todo, s.total) && i <= |todo|
    ensures var r := Walk(s, todo, i, budget, clock);
      Transmits(s, r) && CursorBounds(r) && r.next == s.next
    decreases |todo| - i
  {
    if i < |todo| && budget != 0 {
      var visited := Visit(s, todo[i], clock);
      VisitTransmits(s, todo[i], clock);
      WalkTransmits(visited.0, todo, i + 1, Spend(budget, visited.1), clock);
    }
  }

  lemma {:induction false} SweepTransmits(s: Sender, c: nat, budget: nat, now: int, clock: Clock)
    requires CursorBounds(s) && c <= s.total
    ensures var r := Sweep(s, c, budget, now, clock);
      Transmits(s, r) && CursorBounds(r) && r.next == s.next
    decreases s.total - c
  {
    if c != s.total && budget != 0 {
      if s.acked[c] || ElapsedMs(now, s.lastTx[c]) < GUARD_MS {
        SweepTransmits(s, c + 1, budget, now, clock);
      } else {
        SendTransmits(s, c, clock);
        SweepTransmits(Send(s, c, clock), c + 1, budget - 1, now, clock);
      }
    }
  }

  lemma {:induction false} RtoTransmits(s: Sender, c: nat, now: int, rtoMs: nat, clock: Clock)
    requires CursorBounds(s) && c <= s.total
    ensures var r := Rto(s, c, now, rtoMs, clock);
      Transmits(s, r) && CursorBounds(r) && r.next == s.next
    decreases s.total - c
  {
    if c != s.total {
      LateTransmits(s, c, now, rtoMs, clock);
      RtoTransmits(Late(s, c, now, rtoMs, clock), c + 1, now, rtoMs, clock);
    }
  }

  lemma LateTransmits(s: Sender, c: nat, now: int, rtoMs: nat, clock: Clock)
    requires CursorBounds(s) && c < s.total
    ensures var r := Late(s, c, now, rtoMs, clock); Transmits(s, r) && CursorBounds(r) && r.next == s.next
  {
    SendTransmits(s, c, clock);
  }

  lemma {:induction false} AdvanceReachesEdge(s: Sender, clock: Clock)
    requires CursorBounds(s)
    ensures var r := Advance(s, clock); Transmits(s, r) && CursorLaw(r)
    decreases s.total - s.next
  {
    if s.next < s.total && s.next < s.ackBase + s.inflight {
      var sent := if s.acked[s.next] then s else Send(s, s.next, clock);
      AdvanceReachesEdge(sent.(next := s.next + 1), clock);
    }
  }

  /** The cursor law holds after start_send, and every control message and timeout keeps
      it, whatever the message says and whatever the clock shows. */
  lemma StartCursor(total: nat, configured: nat, clock: Clock)
    ensures CursorLaw(Start(total, configured, clock))
  {
    AdvanceReachesEdge(Fresh(total, configured, clock), clock);
  }

  /** What a report does: no acknowledgement or transmission is lost, ack_base_ only
      grows, and the acknowledgements afterwards are those before and those claimed. */
  ghost predicate Handled(s: Sender, msg: ControlMessage, r: Sender) {
    && CursorLaw(r) && Follows(s, r)
    && (forall c: nat :: c < s.total ==> (r.acked[c] <==> s.acked[c] || msg.Claims(c)))
    && r.ackBase == if msg.cumulative == UINT32_MAX then s.ackBase else Max(s.ackBase, msg.cumulative + 1)
  }

  lemma ApplyHandles(s: Sender, msg: ControlMessage, t: Sender, clock: Clock)
    requires CursorLaw(s) && Transmits(Apply(s, msg), t) && CursorBounds(t) && t.next == s.next
    ensures Handled(s, msg, Advance(RetransmitMissing(t, clock), clock))
  {
    RetransmitMissingTransmits(t, clock);
    AdvanceReachesEdge(RetransmitMissing(t, clock), clock);
  }

  lemma NackHandled(s: Sender, msg: ControlMessage, clock: Clock)
    requires CursorLaw(s)
    ensures Handled(s, msg, HandleNack(s, msg, clock))
  {
    WalkTransmits(Apply(s, msg), Clip(msg.gaps, s.total), 0, GAP_LIMIT, clock);
    ApplyHandles(s, msg, Walk(Apply(s, msg), Clip(msg.gaps, s.total), 0, GAP_LIMIT, clock), clock);
  }

  lemma AckHandled(s: Sender, msg: ControlMessage, clock: Clock)
    requires CursorLaw(s)
    ensures Handled(s, msg, HandleAck(s, msg, clock))
  {
    ApplyHandles(s, msg, Apply(s, msg), clock);
  }

  lemma TimeoutHandled(s: Sender, rtoMs: nat, clock: Clock)
    requires CursorLaw(s)
    ensures CursorLaw(HandleTimeout(s, rtoMs, clock)) && Transmits(s, HandleTimeout(s, rtoMs, clock))
  {
    RtoTransmits(s.(tick := s.tick + 1), 0, clock(s.tick), rtoMs, clock);
  }

  lemma RetransmitMissingTransmits(s: Sender, clock: Clock)
    requires CursorBounds(s)
    ensures var r := RetransmitMissing(s, clock);
      Transmits(s, r) && CursorBounds(r) && r.next == s.next
  {
    SweepTransmits(s.(tick := s.tick + 1), 0, MISSING_LIMIT, clock(s.tick), clock);
  }

  // ---- the gap walk ----

  /** With every guard expired and nothing reported already acked, the walk transmits
      exactly the first `budget` chunks it is given, in order. */
  lemma {:induction false} WalkSendsAll(s: Sender, todo: seq<nat>, i: nat, budget: nat, clock: Clock)
    requires s.Shaped() && Ascending(todo) && Below(todo, s.total) && i <= |todo|
    requires forall j :: i <= j < |todo| ==> Ripe(s, todo[j], clock)
    ensures Walk(s, todo, i, budget, clock).log == s.log + todo[i..Min(i + budget, |todo|)]
    decreases |todo| - i
  {
    hide Walk;
    hide Visit;
    hide Ripe;
    hide Ascending;
    if i == |todo| || budget == 0 {
      WalkEnd(s, todo, i, budget, clock);
      assert todo[i..Min(i + budget, |todo|)] == [];
    } else {
      WalkSendsOne(s, todo, i, budget, clock);
      var sent, end := Visit(s, todo[i], clock).0, Min(i + budget, |todo|);
      WalkSendsAll(sent, todo, i + 1, budget - 1, clock);
      assert Walk(sent, todo, i + 1, budget - 1, clock).log == sent.log + todo[i + 1..end];
      LogStep(s.log, todo, i, end);
    }
  }

  lemma WalkSendsOne(s: Sender, todo: seq<nat>, i: nat, budget: nat, clock: Clock)
    requires s.Shaped() && Ascending(todo) && Below(todo, s.total) && i < |todo| && budget > 0
    requires forall j :: i <= j < |todo| ==> Ripe(s, todo[j], clock)
    ensures var sent := Visit(s, todo[i], clock).0;
      && sent.log == s.log + [todo[i]]
      && Walk(s, todo, i, budget, clock) == Walk(sent, todo, i + 1, budget - 1, clock)
      && forall j :: i + 1 <= j < |todo| ==> Ripe(sent, todo[j], clock)
  {
    VisitSends(s, todo[i], clock);
    forall j | i + 1 <= j < |todo| ensures Ripe(Visit(s, todo[i], clock).0, todo[j], clock) {
      RipeAfter(s, todo[i], todo[j], clock);
    }
  }

  lemma VisitSends(s: Sender, c: nat, clock: Clock)
    requires Ripe(s, c, clock)
    ensures Visit(s, c, clock) == (Send(s.(tick := s.tick + 1), c, clock), true)
  {
  }

  lemma RipeAfter(s: Sender, c: nat, d: nat, clock: Clock)
    requires Ripe(s, c, clock) && Ripe(s, d, clock) && c != d
    ensures Ripe(Visit(s, c, clock).0, d, clock)
  {
    VisitSends(s, c, clock);
  }

  lemma LogStep(log: seq<nat>, todo: seq<nat>, i: nat, end: nat)
    requires i < end <= |todo|
    ensures (log + [todo[i]]) + todo[i + 1..end] == log + todo[i..end]
  {
  }

  /** Not acked, and however late the sender reads its clock from now on, it finds that
      a guard time has passed since the last transmission. */
  ghost predicate Ripe(s: Sender, c: nat, clock: Clock) {
    && s.Shaped() && c < s.total && !s.acked[c]
    && forall k: nat :: s.tick <= k ==> ElapsedMs(clock(k), s.lastTx[c]) >= GUARD_MS
  }

  /** A gap list inside the chunk range loses nothing to the sender's clipping. */
  lemma {:induction false} ClipExpands(gaps: seq<Gap>, total: nat)
    requires forall c :: c in Expand(gaps) ==> c < total
    ensures Clip(gaps, total) == Expand(gaps)
  {
    if gaps != [] {
      ExpandFront(gaps);
      var first := Span(gaps[0].start, gaps[0].End());
      assert forall c :: c in Expand(gaps) <==> c in first || c in Expand(gaps[1..]);
      if gaps[0].len > 0 {
        assert first[gaps[0].len - 1] in first;
      }
      ClipExpands(gaps[1..], total);
    }
  }

  lemma {:induction false} ExpandFront(gaps: seq<Gap>)
    requires gaps != []
    ensures Expand(gaps) == Span(gaps[0].start, gaps[0].End()) + Expand(gaps[1..])
    decreases |gaps|
  {
    var n := |gaps| - 1;
    if n > 0 {
      ExpandFront(gaps[..n]);
      assert gaps[..n][1..] == gaps[1..][..n - 1];
      assert gaps[..n][0] == gaps[0] && gaps[1..][n - 1] == gaps[n];
    } else {
      assert gaps[..0] == [] && gaps[1..] == [];
    }
  }
}
