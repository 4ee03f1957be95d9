/** Clocks that never run backwards, and one that always leaves a guard time between two
    readings: how a run whose clock is a clock finds every chunk ready to be resent. */
module Clocks {
  import opened Geometry
  import opened Control
  import opened SrSender

  /** No reading is earlier than `since`, or than a reading before it. */
  ghost predicate Forward(clock: Clock, since: int) {
    forall j: nat, k: nat :: j <= k ==> since <= clock(j) <= clock(k)
  }

  /** Between any two readings a guard time passes. */
  ghost predicate Ticking(clock: Clock) {
    forall j: nat, k: nat :: j < k ==> clock(j) + GUARD_NANOS <= clock(k)
  }

  /** A guard time has passed for every chunk when the sender next reads the clock. */
  ghost predicate Aged(s: Sender, clock: Clock) {
    s.Shaped() && forall c: nat :: c < |s.lastTx| ==> s.lastTx[c] + GUARD_NANOS <= clock(s.tick)
  }

  function Latest(times: seq<int>): (r: int)
    ensures forall i :: 0 <= i < |times| ==> times[i] <= r
  {
    if times == [] then 0 else
      var r := Latest(times[..|times| - 1]);
      if r < times[|times| - 1] then times[|times| - 1] else r
  }

  /** A clock that goes on from a given time and from whatever the sender has recorded. */
  lemma SteadyClock(s: Sender, since: int) returns (clock: Clock)
    requires s.Shaped()
    ensures Forward(clock, since) && Ticking(clock) && Aged(s, clock)
  {
    var latest := Latest(s.lastTx);
    var base := (if latest < since then since else latest) + GUARD_NANOS;
    clock := EveryGuardTime(base);
  }

  lemma EveryGuardTime(base: int) returns (clock: Clock)
    ensures Ticking(clock) && Forward(clock, base)
  {
    clock := k => base + k * GUARD_NANOS;
    forall j: nat, k: nat | j < k ensures clock(j) + GUARD_NANOS <= clock(k) {
      MulStep(j, k, GUARD_NANOS);
    }
    forall j: nat, k: nat | j <= k ensures base <= clock(j) <= clock(k) {
      MulMonotone(0, j, GUARD_NANOS);
      MulMonotone(j, k, GUARD_NANOS);
    }
  }

  lemma SendAged(s: Sender, c: nat, clock: Clock)
    requires Ticking(clock) && Aged(s, clock) && c < s.total
    ensures Aged(Send(s, c, clock), clock)
  {
    assert clock(s.tick) + GUARD_NANOS <= clock(s.tick + 1);
  }

  lemma ReadAged(s: Sender, clock: Clock)
    requires Ticking(clock) && Aged(s, clock)
    ensures Aged(s.(tick := s.tick + 1), clock)
  {
    assert clock(s.tick) + GUARD_NANOS <= clock(s.tick + 1);
  }

  lemma VisitAged(s: Sender, c: nat, clock: Clock)
    requires Ticking(clock) && Aged(s, clock) && c < s.total
    ensures Aged(Visit(s, c, clock).0, clock)
  {
    hide Ticking;
    hide Aged;
    hide Send;
    AgedShapes(s, clock);
    ReadAged(s, clock);
    SendAged(s.(tick := s.tick + 1), c, clock);
  }

  lemma AgedShapes(s: Sender, clock: Clock)
    requires Aged(s, clock)
    ensures s.Shaped()
  {
  }

  lemma {:induction false} WalkAged(s: Sender, todo: seq<nat>, i: nat, budget: nat, clock: Clock)
    requires Ticking(clock) && Aged(s, clock) && s.Shaped() && Below(todo, s.total) && i <= |todo|
    ensures Aged(Walk(s, todo, i, budget, clock), clock)
    decreases |todo| - i
  {
    hide Ticking;
    hide Aged;
    hide Visit;
    if i < |todo| && budget != 0 {
      var visited := Visit(s, todo[i], clock);
      VisitAged(s, todo[i], clock);
      WalkAged(visited.0, todo, i + 1, Spend(budget, visited.1), clock);
    }
  }

  lemma {:induction false} SweepAged(s: Sender, c: nat, budget: nat, now: int, clock: Clock)
    requires Ticking(clock) && Aged(s, clock) && s.Shaped() && c <= s.total
    ensures Aged(Sweep(s, c, budget, now, clock), clock)
    decreases s.total - c
  {
    hide Ticking;
    hide Aged;
    hide Send;
    if c < s.total && budget != 0 {
      if s.acked[c] || ElapsedMs(now, s.lastTx[c]) < GUARD_MS {
        SweepAged(s, c + 1, budget, now, clock);
      } else {
        SendAged(s, c, clock);
        SweepAged(Send(s, c, clock), c + 1, budget - 1, now, clock);
      }
    }
  }

  lemma RetransmitMissingAged(s: Sender, clock: Clock)
    requires Ticking(clock) && Aged(s, clock) && s.Shaped()
    ensures Aged(RetransmitMissing(s, clock), clock)
  {
    hide Ticking;
    hide Aged;
    hide Sweep;
    ReadAged(s, clock);
    SweepAged(s.(tick := s.tick + 1), 0, MISSING_LIMIT, clock(s.tick), clock);
  }

  lemma NextAged(s: Sender, clock: Clock)
    requires Aged(s, clock)
    ensures Aged(s.(next := s.next + 1), clock)
  {
  }

  lemma {:induction false} AdvanceAged(s: Sender, clock: Clock)
    requires Ticking(clock) && Aged(s, clock) && s.Shaped()
    ensures Aged(Advance(s, clock), clock)
    decreases s.total - s.next
  {
    hide Ticking;
    hide Aged;
    hide Send;
    if s.next < s.total && s.next < s.ackBase + s.inflight {
      var sent := if s.acked[s.next] then s else Send(s, s.next, clock);
      if !s.acked[s.next] {
        SendAged(s, s.next, clock);
        SentNext(s, s.next, clock);
      }
      NextAged(sent, clock);
      AdvanceAged(sent.(next := s.next + 1), clock);
    }
  }

  lemma SentNext(s: Sender, c: nat, clock: Clock)
    requires s.Shaped() && c < s.total
    ensures Send(s, c, clock).next == s.next
  {
  }

  lemma AppliedAged(s: Sender, msg: ControlMessage, clock: Clock)
    requires Aged(s, clock) && s.Shaped()
    ensures Aged(Apply(s, msg), clock)
  {
  }

  lemma NackAged(s: Sender, msg: ControlMessage, clock: Clock)
    requires Ticking(clock) && Aged(s, clock) && s.Shaped()
    ensures Aged(HandleNack(s, msg, clock), clock)
  {
    hide Ticking;
    hide Aged;
    hide Walk;
    hide Advance;
    hide RetransmitMissing;
    hide Apply;
    AppliedAged(s, msg, clock);
    var walked := Walk(Apply(s, msg), Clip(msg.gaps, s.total), 0, GAP_LIMIT, clock);
    WalkAged(Apply(s, msg), Clip(msg.gaps, s.total), 0, GAP_LIMIT, clock);
    RetransmitMissingAged(walked, clock);
    AdvanceAged(RetransmitMissing(walked, clock), clock);
  }

  lemma AckAged(s: Sender, msg: ControlMessage, clock: Clock)
    requires Ticking(clock) && Aged(s, clock) && s.Shaped()
    ensures Aged(HandleAck(s, msg, clock), clock)
  {
    hide Ticking;
    hide Aged;
    hide Advance;
    hide RetransmitMissing;
    hide Apply;
    AppliedAged(s, msg, clock);
    RetransmitMissingAged(Apply(s, msg), clock);
    AdvanceAged(RetransmitMissing(Apply(s, msg), clock), clock);
  }
}
