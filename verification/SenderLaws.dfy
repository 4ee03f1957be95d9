/** What the sender transmits on a report, on a timeout and at the start, in terms of
    chunks, acknowledgements and clock readings alone. */
module SenderLaws {
  import opened Geometry
  import opened Control
  import opened SrSender

  // ---- time ----

  /** Fifty milliseconds, truncated to whole ones, have passed from `last` to `now`. */
  lemma GuardInNanos(now: int, last: int)
    ensures ElapsedMs(now, last) >= GUARD_MS <==> now - last >= 50_000_000
  {
  }

  lemma TimeoutInNanos(now: int, last: int, rtoMs: nat)
    ensures ElapsedMs(now, last) > rtoMs <==> now - last >= (rtoMs + 1) * 1_000_000
  {
  }

  // ---- what stays ----

  /** Only transmissions have happened, and only of these chunks, in this order. */
  ghost predicate Transmitted(s: Sender, r: Sender, sent: seq<nat>) {
    && s.Shaped() && r.Shaped()
    && r == s.(next := r.next, lastTx := r.lastTx, tick := r.tick, log := s.log + sent)
    && s.tick <= r.tick
    && forall c: nat :: c < s.total && c !in sent ==> r.lastTx[c] == s.lastTx[c]
  }

  /** The transmissions carry readings of the clock made meanwhile. */
  ghost predicate Stamped(s: Sender, r: Sender, sent: seq<nat>, clock: Clock) {
    r.Shaped() && forall c: nat :: c < r.total && c in sent ==> ReadBetween(s.tick, r.tick, clock, r.lastTx[c])
  }

  ghost predicate ReadBetween(lo: nat, hi: nat, clock: Clock, time: int) {
    exists k: nat :: lo <= k < hi && clock(k) == time
  }

  lemma ReadLonger(lo: nat, hi: nat, from: nat, to: nat, clock: Clock, time: int)
    requires ReadBetween(lo, hi, clock, time) && from <= lo && hi <= to
    ensures ReadBetween(from, to, clock, time)
  {
  }

  /** One transmission, then the others, of later chunks. */
  lemma TransmittedThen(s: Sender, c: nat, r: Sender, rest: seq<nat>, clock: Clock)
    requires s.Shaped() && c < s.total && c !in rest
    requires Transmitted(Send(s, c, clock), r, rest) && Stamped(Send(s, c, clock), r, rest, clock)
    ensures Transmitted(s, r, [c] + rest) && Stamped(s, r, [c] + rest, clock)
  {
    var t := Send(s, c, clock);
    assert s.log + ([c] + rest) == t.log + rest;
    assert clock(s.tick) == r.lastTx[c];
    forall d: nat | d < r.total && d in [c] + rest ensures ReadBetween(s.tick, r.tick, clock, r.lastTx[d]) {
      if d in rest {
        ReadLonger(t.tick, r.tick, s.tick, r.tick, clock, r.lastTx[d]);
      }
    }
  }

  // ---- the throttled sweep ----

  /** Unacked, and the guard time has passed since its last transmission. */
  predicate Due(s: Sender, c: nat, now: int) {
    s.Shaped() && c < s.total && !s.acked[c] && now - s.lastTx[c] >= 50_000_000
  }

  /** The due chunks from `from` on, or the first `limit` of them. */
  ghost predicate FirstDue(s: Sender, from: nat, now: int, sent: seq<nat>, limit: nat) {
    && Ascending(sent) && |sent| <= limit
    && (forall c :: c in sent ==> from <= c && Due(s, c, now))
    && forall c: nat :: from <= c && Due(s, c, now) && c !in sent ==> |sent| == limit && forall d :: d in sent ==> d < c
  }

  lemma {:induction false} SweepSends(s: Sender, c: nat, budget: nat, now: int, clock: Clock) returns (sent: seq<nat>)
    requires s.Shaped() && c <= s.total
    ensures FirstDue(s, c, now, sent, budget)
    ensures var r := Sweep(s, c, budget, now, clock);
      Transmitted(s, r, sent) && Stamped(s, r, sent, clock) && r.next == s.next
    decreases s.total - c
  {
    hide Sweep;
    hide Transmitted;
    hide Stamped;
    if c == s.total || budget == 0 {
      sent := [];
      SweepEnd(s, c, budget, now, clock);
      NothingSent(s, clock);
    } else {
      SweepStep(s, c, budget, now, clock);
      GuardInNanos(now, s.lastTx[c]);
      if Due(s, c, now) {
        var t := Send(s, c, clock);
        var rest := SweepSends(t, c + 1, budget - 1, now, clock);
        DueLater(s, c, rest, budget - 1, now, clock);
        sent := [c] + rest;
        TransmittedThen(s, c, Sweep(t, c + 1, budget - 1, now, clock), rest, clock);
      } else {
        sent := SweepSends(s, c + 1, budget, now, clock);
      }
    }
  }

  lemma NothingSent(s: Sender, clock: Clock)
    requires s.Shaped()
    ensures Transmitted(s, s, []) && Stamped(s, s, [], clock)
  {
    assert s.log + [] == s.log;
  }

  lemma DueLater(s: Sender, c: nat, rest: seq<nat>, limit: nat, now: int, clock: Clock)
    requires Due(s, c, now) && FirstDue(Send(s, c, clock), c + 1, now, rest, limit)
    ensures c !in rest && FirstDue(s, c, now, [c] + rest, limit + 1)
  {
    forall d: nat | c < d ensures Due(s, d, now) <==> Due(Send(s, c, clock), d, now) {
    }
    assert ([c] + rest)[1..] == rest;
    forall i, j | 0 <= i < j < |[c] + rest| ensures ([c] + rest)[i] < ([c] + rest)[j] {
      assert ([c] + rest)[j] == rest[j - 1] && rest[j - 1] in rest;
    }
  }

  /** The sweep reads the clock once and resends, in ascending order, the first four chunks
      that are unacked and for which 50 ms have passed at that reading, or all of them when
      there are fewer. */
  lemma MissingResent(s: Sender, clock: Clock) returns (sent: seq<nat>)
    requires s.Shaped()
    ensures FirstDue(s, 0, clock(s.tick), sent, 4)
    ensures var r := RetransmitMissing(s, clock);
      Transmitted(s, r, sent) && Stamped(s, r, sent, clock) && r.next == s.next
  {
    var read := s.(tick := s.tick + 1);
    sent := SweepSends(read, 0, MISSING_LIMIT, clock(s.tick), clock);
    DueAgain(s, sent, clock(s.tick));
    var r := RetransmitMissing(s, clock);
    forall c: nat | c < r.total && c in sent ensures ReadBetween(s.tick, r.tick, clock, r.lastTx[c]) {
      ReadLonger(read.tick, r.tick, s.tick, r.tick, clock, r.lastTx[c]);
    }
  }

  lemma DueAgain(s: Sender, sent: seq<nat>, now: int)
    requires FirstDue(s.(tick := s.tick + 1), 0, now, sent, 4)
    ensures FirstDue(s, 0, now, sent, 4)
  {
    forall c: nat ensures Due(s, c, now) <==> Due(s.(tick := s.tick + 1), c, now) {
    }
  }

  // ---- the cursor ----

  /** Exactly the unacked chunks from lo up to hi, in order. */
  ghost predicate UnackedOf(s: Sender, lo: nat, hi: nat, sent: seq<nat>) {
    && s.Shaped() && Ascending(sent)
    && forall c: nat :: c in sent <==> lo <= c < hi && c < s.total && !s.acked[c]
  }

  lemma AdvanceStep(s: Sender, clock: Clock)
    requires s.Shaped()
    ensures Advance(s, clock) ==
      if s.next < s.total && s.next < s.ackBase + s.inflight
      then Advance((if s.acked[s.next] then s else Send(s, s.next, clock)).(next := s.next + 1), clock)
      else s
  {
  }

  /** The cursor moves to the edge of the window and transmits exactly the unacked chunks
      it passes, in order. */
  lemma {:induction false} CursorSends(s: Sender, clock: Clock) returns (sent: seq<nat>)
    requires s.Shaped()
    ensures var r := Advance(s, clock);
      && r.next == Max(s.next, Min(s.total, s.ackBase + s.inflight))
      && UnackedOf(s, s.next, r.next, sent)
      && Transmitted(s, r, sent) && Stamped(s, r, sent, clock)
    decreases s.total - s.next
  {
    hide Advance;
    hide Transmitted;
    hide Stamped;
    hide UnackedOf;
    AdvanceStep(s, clock);
    var c, r := s.next, Advance(s, clock);
    if c < s.total && c < s.ackBase + s.inflight {
      if s.acked[c] {
        var t := s.(next := c + 1);
        sent := CursorSends(t, clock);
        UnackedSkip(s, t, r.next, sent);
        TransmittedFrom(s, t, r, sent, clock);
      } else {
        var t := Send(s, c, clock).(next := c + 1);
        var rest := CursorSends(t, clock);
        sent := [c] + rest;
        UnackedThen(s, c, t, r.next, rest);
        TransmittedFrom(Send(s, c, clock), t, r, rest, clock);
        TransmittedThen(s, c, r, rest, clock);
      }
    } else {
      sent := [];
      UnackedNone(s, c);
      NothingSent(s, clock);
    }
  }

  lemma UnackedNone(s: Sender, c: nat)
    requires s.Shaped()
    ensures UnackedOf(s, c, c, [])
  {
  }

  lemma UnackedSkip(s: Sender, t: Sender, hi: nat, sent: seq<nat>)
    requires s.Shaped() && s.next < s.total && s.acked[s.next] && t == s.(next := s.next + 1)
    requires UnackedOf(t, s.next + 1, hi, sent)
    ensures UnackedOf(s, s.next, hi, sent)
  {
  }

  /** The cursor alone has moved before. */
  lemma TransmittedFrom(s: Sender, t: Sender, r: Sender, sent: seq<nat>, clock: Clock)
    requires s.Shaped() && t == s.(next := t.next) && Transmitted(t, r, sent) && Stamped(t, r, sent, clock)
    ensures Transmitted(s, r, sent) && Stamped(s, r, sent, clock)
  {
  }

  lemma UnackedThen(s: Sender, c: nat, t: Sender, hi: nat, rest: seq<nat>)
    requires s.Shaped() && c < s.total && !s.acked[c] && c < hi
    requires t.acked == s.acked && t.total == s.total && UnackedOf(t, c + 1, hi, rest)
    ensures c !in rest && UnackedOf(s, c, hi, [c] + rest)
  {
    forall i, j | 0 <= i < j < |[c] + rest| ensures ([c] + rest)[i] < ([c] + rest)[j] {
      assert ([c] + rest)[j] == rest[j - 1] && rest[j - 1] in rest;
    }
  }

  // ---- the gap walk ----

  /** The walk comes to todo[i..upto], and for each of those chunks that is unacked it makes
      a reading of its own, number at(j), the later the further in the list. Those for which
      50 ms have passed at their reading are transmitted, and nothing else. It stops at the
      end of the list or with the last chunk it may transmit. */
  ghost predicate WalkDecides(
    s: Sender, todo: seq<nat>, i: nat, upto: nat, sent: seq<nat>, at: nat -> nat, end: nat, limit: nat, clock: Clock)
  {
    && s.Shaped() && Below(todo, s.total)
    && WalkOrder(todo, i, upto, sent, limit)
    && WalkChoice(s, todo, i, upto, sent, at, clock)
    && WalkReads(s, todo, i, upto, at, end)
  }

  predicate WalkOrder(todo: seq<nat>, i: nat, upto: nat, sent: seq<nat>, limit: nat) {
    && i <= upto <= |todo| && Ascending(sent) && |sent| <= limit
    && (forall c :: c in sent ==> c in todo[i..upto])
    && (upto < |todo| ==> |sent| == limit)
    && (limit == 0 ==> upto == i)
    && (|sent| == limit && 0 < limit ==> 0 < upto && todo[upto - 1] == sent[limit - 1])
  }

  predicate WalkChoice(s: Sender, todo: seq<nat>, i: nat, upto: nat, sent: seq<nat>, at: nat -> nat, clock: Clock) {
    && s.Shaped() && Below(todo, s.total) && upto <= |todo|
    && forall j :: i <= j < upto ==>
         (todo[j] in sent <==> !s.acked[todo[j]] && clock(at(j)) - s.lastTx[todo[j]] >= 50_000_000)
  }

  predicate WalkReads(s: Sender, todo: seq<nat>, i: nat, upto: nat, at: nat -> nat, end: nat) {
    && s.Shaped() && Below(todo, s.total) && upto <= |todo|
    && (forall j :: i <= j < upto && !s.acked[todo[j]] ==> s.tick <= at(j) < end)
    && (forall j, k :: i <= j < k < upto && !s.acked[todo[j]] && !s.acked[todo[k]] ==> at(j) < at(k))
  }

  lemma WalkStep(s: Sender, todo: seq<nat>, i: nat, budget: nat, clock: Clock)
    requires s.Shaped() && Below(todo, s.total) && i < |todo| && budget > 0
    ensures var (t, sent) := Visit(s, todo[i], clock);
      Walk(s, todo, i, budget, clock) == Walk(t, todo, i + 1, if sent then budget - 1 else budget, clock)
  {
  }

  /** The walk over reported chunks in ascending order. */
  lemma {:induction false} WalkSends(s: Sender, todo: seq<nat>, i: nat, limit: nat, clock: Clock)
    returns (sent: seq<nat>, upto: nat, at: nat -> nat)
    requires s.Shaped() && Below(todo, s.total) && Ascending(todo) && i <= |todo|
    ensures var r := Walk(s, todo, i, limit, clock);
      && WalkDecides(s, todo, i, upto, sent, at, r.tick, limit, clock)
      && Transmitted(s, r, sent) && Stamped(s, r, sent, clock) && r.next == s.next
    decreases |todo| - i
  {
    hide Walk;
    hide Visit;
    hide WalkDecides;
    hide Transmitted;
    hide Stamped;
    hide Ascending;
    if i == |todo| || limit == 0 {
      sent, upto, at := [], i, _ => 0;
      WalkEnd(s, todo, i, limit, clock);
      NothingSent(s, clock);
      WalkOver(s, todo, i, at, limit, clock);
    } else {
      WalkStep(s, todo, i, limit, clock);
      var (t, visited) := Visit(s, todo[i], clock);
      var rest, end, later := WalkSends(t, todo, i + 1, if visited then limit - 1 else limit, clock);
      sent, upto, at := if visited then [todo[i]] + rest else rest, end, j => if j == i then s.tick else later(j);
      var r := Walk(s, todo, i, limit, clock);
      VisitThen(s, todo, i, r, rest, end, later, limit, clock);
      VisitDecides(s, todo, i, end, rest, later, at, r.tick, limit, clock);
    }
  }

  lemma WalkOver(s: Sender, todo: seq<nat>, i: nat, at: nat -> nat, limit: nat, clock: Clock)
    requires s.Shaped() && Below(todo, s.total) && i <= |todo| && (i == |todo| || limit == 0)
    ensures WalkDecides(s, todo, i, i, [], at, s.tick, limit, clock)
  {
  }

  lemma VisitDecides(
    s: Sender, todo: seq<nat>, i: nat, upto: nat, rest: seq<nat>, later: nat -> nat, at: nat -> nat, end: nat,
    limit: nat, clock: Clock)
    requires s.Shaped() && Below(todo, s.total) && Ascending(todo) && i < |todo| && limit > 0
    requires at(i) == s.tick && forall j: nat :: j != i ==> at(j) == later(j)
    requires var (t, sent) := Visit(s, todo[i], clock);
      && WalkDecides(t, todo, i + 1, upto, rest, later, end, if sent then limit - 1 else limit, clock)
      && t.tick <= end
    ensures var (t, sent) := Visit(s, todo[i], clock);
      WalkDecides(s, todo, i, upto, if sent then [todo[i]] + rest else rest, at, end, limit, clock)
  {
    hide Visit;
    hide WalkOrder;
    hide WalkChoice;
    hide WalkReads;
    hide Ascending;
    var (t, visited) := Visit(s, todo[i], clock);
    LaterInList(todo, i, upto, rest, if visited then limit - 1 else limit);
    if visited {
      OrderThen(todo, i, upto, rest, limit);
    } else {
      OrderSkip(todo, i, upto, rest, limit);
    }
    ChoiceThen(s, todo, i, upto, rest, later, at, clock);
    ReadsThen(s, todo, i, upto, later, at, end, clock);
  }

  lemma OrderThen(todo: seq<nat>, i: nat, upto: nat, rest: seq<nat>, limit: nat)
    requires Ascending(todo) && i < |todo| && limit > 0 && WalkOrder(todo, i + 1, upto, rest, limit - 1)
    ensures WalkOrder(todo, i, upto, [todo[i]] + rest, limit)
  {
    var sent := [todo[i]] + rest;
    assert todo[i..upto][1..] == todo[i + 1..upto];
    assert todo[i..upto][0] == todo[i];
    forall d | d in rest ensures todo[i] < d {
      var j :| 0 <= j < |todo[i + 1..upto]| && todo[i + 1..upto][j] == d;
      assert todo[i + 1 + j] == d;
    }
    forall j, k | 0 <= j < k < |sent| ensures sent[j] < sent[k] {
      assert sent[k] == rest[k - 1] && rest[k - 1] in rest;
    }
    if |sent| == limit && limit > 1 {
      assert sent[limit - 1] == rest[limit - 2];
    }
  }

  lemma OrderSkip(todo: seq<nat>, i: nat, upto: nat, rest: seq<nat>, limit: nat)
    requires i < |todo| && limit > 0 && WalkOrder(todo, i + 1, upto, rest, limit)
    ensures WalkOrder(todo, i, upto, rest, limit)
  {
    assert todo[i..upto][1..] == todo[i + 1..upto];
  }

  lemma LaterInList(todo: seq<nat>, i: nat, upto: nat, rest: seq<nat>, limit: nat)
    requires Ascending(todo) && i < |todo| && WalkOrder(todo, i + 1, upto, rest, limit)
    ensures i + 1 <= upto && todo[i] !in rest && forall j :: i < j < upto ==> todo[j] != todo[i]
  {
  }

  lemma ChoiceThen(
    s: Sender, todo: seq<nat>, i: nat, upto: nat, rest: seq<nat>, later: nat -> nat, at: nat -> nat, clock: Clock)
    requires s.Shaped() && Below(todo, s.total) && i < upto <= |todo|
    requires todo[i] !in rest && forall j :: i < j < upto ==> todo[j] != todo[i]
    requires at(i) == s.tick && forall j: nat :: j != i ==> at(j) == later(j)
    requires WalkChoice(Visit(s, todo[i], clock).0, todo, i + 1, upto, rest, later, clock)
    ensures var sent := if Visit(s, todo[i], clock).1 then [todo[i]] + rest else rest;
      WalkChoice(s, todo, i, upto, sent, at, clock)
  {
    var (t, visited) := Visit(s, todo[i], clock);
    GuardInNanos(clock(s.tick), s.lastTx[todo[i]]);
    forall j | i < j < upto ensures at(j) == later(j) && t.lastTx[todo[j]] == s.lastTx[todo[j]] {
    }
  }

  lemma ReadsThen(
    s: Sender, todo: seq<nat>, i: nat, upto: nat, later: nat -> nat, at: nat -> nat, end: nat, clock: Clock)
    requires s.Shaped() && Below(todo, s.total) && i < upto <= |todo|
    requires at(i) == s.tick && forall j: nat :: j != i ==> at(j) == later(j)
    requires var t := Visit(s, todo[i], clock).0;
      WalkReads(t, todo, i + 1, upto, later, end) && t.tick <= end
    ensures WalkReads(s, todo, i, upto, at, end)
  {
    forall j | i < j < upto ensures at(j) == later(j) {
    }
  }

  lemma VisitThen(
    s: Sender, todo: seq<nat>, i: nat, r: Sender, rest: seq<nat>, end: nat, later: nat -> nat, limit: nat,
    clock: Clock)
    requires s.Shaped() && Below(todo, s.total) && Ascending(todo) && i < |todo| && limit > 0
    requires var (t, sent) := Visit(s, todo[i], clock);
      && WalkDecides(t, todo, i + 1, end, rest, later, r.tick, if sent then limit - 1 else limit, clock)
      && Transmitted(t, r, rest) && Stamped(t, r, rest, clock) && r.next == t.next
    ensures var (t, visited) := Visit(s, todo[i], clock);
      var sent := if visited then [todo[i]] + rest else rest;
      Transmitted(s, r, sent) && Stamped(s, r, sent, clock) && r.next == s.next && t.tick <= r.tick
  {
  }

  // ---- which chunks a gap list makes the sender look at ----

  lemma {:induction false} ClipMembers(gaps: seq<Gap>, total: nat, c: nat)
    ensures c in Clip(gaps, total) <==> c in Expand(gaps) && c < total
  {
    if gaps != [] {
      ExpandFront(gaps);
      ClipMembers(gaps[1..], total, c);
      InSpan(gaps[0].start, gaps[0].End(), c);
      var end := Min(gaps[0].End(), total);
      if gaps[0].start < end {
        InSpan(gaps[0].start, end, c);
      }
    }
  }

  lemma InSpan(lo: nat, hi: nat, c: nat)
    requires lo <= hi
    ensures c in Span(lo, hi) <==> lo <= c < hi
  {
    if lo <= c < hi {
      assert Span(lo, hi)[c - lo] == c;
    }
  }

  lemma {:induction false} ClipAscends(gaps: seq<Gap>, total: nat)
    requires Ascending(Expand(gaps))
    ensures Ascending(Clip(gaps, total))
  {
    hide Expand;
    if gaps != [] {
      ExpandFront(gaps);
      var g, rest := gaps[0], Expand(gaps[1..]);
      SpanBefore(g.start, g.End(), rest);
      ClipAscends(gaps[1..], total);
      var end, tail := Min(g.End(), total), Clip(gaps[1..], total);
      if g.start < end {
        forall d | d in tail ensures end <= d {
          ClipMembers(gaps[1..], total, d);
        }
        SpanThen(g.start, end, tail);
      } else {
        assert [] + tail == tail;
      }
    }
  }

  lemma SpanBefore(lo: nat, hi: nat, rest: seq<nat>)
    requires lo <= hi && Ascending(Span(lo, hi) + rest)
    ensures Ascending(rest) && (lo < hi ==> forall d :: d in rest ==> hi <= d)
  {
    var all := Span(lo, hi) + rest;
    forall i, j | 0 <= i < j < |rest| ensures rest[i] < rest[j] {
      assert all[hi - lo + i] < all[hi - lo + j];
    }
    if lo < hi {
      forall d | d in rest ensures hi <= d {
        var j :| 0 <= j < |rest| && rest[j] == d;
        assert all[hi - lo - 1] < all[hi - lo + j];
      }
    }
  }

  lemma SpanThen(lo: nat, hi: nat, tail: seq<nat>)
    requires lo <= hi && Ascending(tail) && forall d :: d in tail ==> hi <= d
    ensures Ascending(Span(lo, hi) + tail)
  {
    var all := Span(lo, hi) + tail;
    forall i, j | 0 <= i < j < |all| ensures all[i] < all[j] {
      if j >= hi - lo {
        assert all[j] == tail[j - (hi - lo)] && all[j] in tail;
        assert i >= hi - lo ==> all[i] == tail[i - (hi - lo)];
      }
    }
  }

  // ---- reports ----

  /** The acknowledgements of a report: a chunk is acked afterwards when it was before or
      when the report claims it, and ack_base_ moves past the prefix, never back. */
  ghost predicate Heard(s: Sender, msg: ControlMessage, a: Sender) {
    && s.Shaped() && a.Shaped() && a == s.(acked := a.acked, ackBase := a.ackBase)
    && (forall c: nat :: c < s.total ==> (a.acked[c] <==> s.acked[c] || msg.Claims(c)))
    && a.ackBase == if msg.cumulative == 0xFFFF_FFFF then s.ackBase else Max(s.ackBase, msg.cumulative + 1)
  }

  /** After that, at most four chunks of the sweep, then all that the cursor passes. */
  ghost predicate SweptAndMoved(t: Sender, u: Sender, r: Sender, swept: seq<nat>, moved: seq<nat>, clock: Clock) {
    && t.Shaped() && FirstDue(t, 0, clock(t.tick), swept, 4)
    && Transmitted(t, u, swept) && Stamped(t, u, swept, clock) && u.next == t.next
    && r.next == Max(u.next, Min(u.total, u.ackBase + u.inflight))
    && UnackedOf(u, u.next, r.next, moved)
    && Transmitted(u, r, moved) && Stamped(u, r, moved, clock)
  }

  lemma SweepAndMove(t: Sender, clock: Clock) returns (u: Sender, swept: seq<nat>, moved: seq<nat>)
    requires t.Shaped()
    ensures SweptAndMoved(t, u, Advance(RetransmitMissing(t, clock), clock), swept, moved, clock)
  {
    hide RetransmitMissing;
    hide Advance;
    u := RetransmitMissing(t, clock);
    swept := MissingResent(t, clock);
    moved := CursorSends(u, clock);
  }

  lemma ReportHeard(s: Sender, msg: ControlMessage)
    requires s.Shaped()
    ensures Heard(s, msg, Apply(s, msg))
  {
  }

  /** An SR_ACK: the report is heard, then the sweep sends, then the cursor. */
  lemma AckSends(s: Sender, msg: ControlMessage, clock: Clock)
    returns (a: Sender, u: Sender, swept: seq<nat>, moved: seq<nat>)
    requires s.Shaped()
    ensures var r := HandleAck(s, msg, clock);
      && Heard(s, msg, a)
      && SweptAndMoved(a, u, r, swept, moved, clock)
      && r.log == s.log + swept + moved
  {
    hide Advance;
    hide RetransmitMissing;
    hide Apply;
    a := Apply(s, msg);
    ReportHeard(s, msg);
    u, swept, moved := SweepAndMove(a, clock);
  }

  /** What the walk over the gaps of a report is given: the chunks of the gaps that the
      message has, in order. */
  ghost predicate Named(msg: ControlMessage, total: nat, todo: seq<nat>) {
    Ascending(todo) && forall c: nat :: c in todo <==> c in Expand(msg.gaps) && c < total
  }

  /** An SR_NACK: the report is heard, then at most eight chunks of its gaps go out, then
      the sweep sends, then the cursor. */
  lemma NackSends(s: Sender, msg: ControlMessage, clock: Clock)
    returns (
      a: Sender, t: Sender, u: Sender, todo: seq<nat>, upto: nat, at: nat -> nat,
      walked: seq<nat>, swept: seq<nat>, moved: seq<nat>)
    requires s.Shaped() && Ascending(Expand(msg.gaps))
    ensures var r := HandleNack(s, msg, clock);
      && Heard(s, msg, a)
      && Named(msg, s.total, todo) && WalkDecides(a, todo, 0, upto, walked, at, t.tick, 8, clock)
      && Transmitted(a, t, walked) && Stamped(a, t, walked, clock) && t.next == a.next
      && SweptAndMoved(t, u, r, swept, moved, clock)
      && r.log == s.log + walked + swept + moved
  {
    hide Advance;
    hide RetransmitMissing;
    hide Apply;
    hide Walk;
    hide Clip;
    hide Stamped;
    hide WalkDecides;
    a, todo := Apply(s, msg), Clip(msg.gaps, s.total);
    ReportHeard(s, msg);
    GapsNamed(s, msg);
    walked, upto, at := WalkSends(a, todo, 0, GAP_LIMIT, clock);
    t := Walk(a, todo, 0, GAP_LIMIT, clock);
    u, swept, moved := SweepAndMove(t, clock);
  }

  lemma GapsNamed(s: Sender, msg: ControlMessage)
    requires Ascending(Expand(msg.gaps))
    ensures Named(msg, s.total, Clip(msg.gaps, s.total))
  {
    ClipAscends(msg.gaps, s.total);
    forall c: nat ensures c in Clip(msg.gaps, s.total) <==> c in Expand(msg.gaps) && c < s.total {
      ClipMembers(msg.gaps, s.total, c);
    }
  }

  /** An SR_ACK ends poll exactly when its prefix reaches the chunk count it names; one
      without a prefix only when it names none. */
  lemma AckEndsPoll(msg: ControlMessage)
    requires msg.cumulative <= 0xFFFF_FFFF
    ensures AckIsFinal(msg) <==>
      if msg.cumulative == 0xFFFF_FFFF then msg.totalChunks == 0 else msg.cumulative + 1 >= msg.totalChunks
  {
  }

  // ---- the timeout path ----

  /** Exactly the unacked chunks from `from` on whose timeout has passed, in order. */
  ghost predicate Overdue(s: Sender, from: nat, now: int, rtoMs: nat, sent: seq<nat>) {
    && s.Shaped() && Ascending(sent)
    && forall c: nat :: c in sent <==>
         from <= c < s.total && !s.acked[c] && now - s.lastTx[c] >= (rtoMs + 1) * 1_000_000
  }

  ghost predicate ResentAt(s: Sender, r: Sender, now: int, sent: seq<nat>) {
    && s.Shaped() && r.Shaped()
    && r == s.(lastTx := r.lastTx, tick := r.tick, log := s.log + sent)
    && forall c: nat :: c < s.total ==> r.lastTx[c] == if c in sent then now else s.lastTx[c]
  }

  lemma RtoStep(s: Sender, c: nat, now: int, rtoMs: nat, clock: Clock)
    requires s.Shaped() && c < s.total
    ensures Rto(s, c, now, rtoMs, clock) == Rto(Late(s, c, now, rtoMs, clock), c + 1, now, rtoMs, clock)
  {
  }

  lemma {:induction false} RtoSends(s: Sender, c: nat, now: int, rtoMs: nat, clock: Clock) returns (sent: seq<nat>)
    requires s.Shaped() && c <= s.total
    ensures Overdue(s, c, now, rtoMs, sent) && ResentAt(s, Rto(s, c, now, rtoMs, clock), now, sent)
    decreases s.total - c
  {
    hide Rto;
    hide Late;
    hide Overdue;
    hide ResentAt;
    if c == s.total {
      sent := [];
      NothingOverdue(s, now, rtoMs, clock);
    } else {
      RtoStep(s, c, now, rtoMs, clock);
      var t := Late(s, c, now, rtoMs, clock);
      var rest := RtoSends(t, c + 1, now, rtoMs, clock);
      sent := OneLate(s, c, now, rtoMs, clock, Rto(s, c, now, rtoMs, clock), rest);
    }
  }

  lemma NothingOverdue(s: Sender, now: int, rtoMs: nat, clock: Clock)
    requires s.Shaped()
    ensures Overdue(s, s.total, now, rtoMs, []) && ResentAt(s, Rto(s, s.total, now, rtoMs, clock), now, [])
  {
    assert s.log + [] == s.log;
  }

  lemma OneLate(s: Sender, c: nat, now: int, rtoMs: nat, clock: Clock, r: Sender, rest: seq<nat>)
    returns (sent: seq<nat>)
    requires s.Shaped() && c < s.total
    requires var t := Late(s, c, now, rtoMs, clock);
      Overdue(t, c + 1, now, rtoMs, rest) && ResentAt(t, r, now, rest)
    ensures Overdue(s, c, now, rtoMs, sent) && ResentAt(s, r, now, sent)
  {
    TimeoutInNanos(now, s.lastTx[c], rtoMs);
    var t := Late(s, c, now, rtoMs, clock);
    var late := !s.acked[c] && now - s.lastTx[c] >= (rtoMs + 1) * 1_000_000;
    sent := if late then [c] + rest else rest;
    assert c !in rest;
    forall i, j | 0 <= i < j < |sent| ensures sent[i] < sent[j] {
      assert late ==> sent[j] == rest[j - 1] && rest[j - 1] in rest;
    }
    assert late ==> t.log + rest == s.log + sent;
  }

  /** After a timeout the sender reads the clock once and resends, in order, exactly the
      unacked chunks last sent at least the timeout and a millisecond before; they are noted
      as sent at that reading. */
  lemma TimeoutSends(s: Sender, rtoMs: nat, clock: Clock) returns (sent: seq<nat>)
    requires s.Shaped()
    ensures Overdue(s, 0, clock(s.tick), rtoMs, sent)
    ensures ResentAt(s, HandleTimeout(s, rtoMs, clock), clock(s.tick), sent)
  {
    hide Rto;
    sent := RtoSends(s.(tick := s.tick + 1), 0, clock(s.tick), rtoMs, clock);
  }

  // ---- the start ----

  lemma LastOf(sent: seq<nat>, n: nat)
    requires Ascending(sent) && (forall c: nat :: c in sent <==> c < n) && 0 < n
    ensures sent != [] && sent[|sent| - 1] == n - 1
  {
    assert n - 1 in sent;
    var k :| 0 <= k < |sent| && sent[k] == n - 1;
    assert sent[|sent| - 1] in sent;
  }

  lemma {:induction false} AllOf(sent: seq<nat>, n: nat)
    requires Ascending(sent) && forall c: nat :: c in sent <==> c < n
    ensures sent == Span(0, n)
    decreases n
  {
    if n > 0 {
      LastOf(sent, n);
      var init := sent[..|sent| - 1];
      assert sent == init + [n - 1];
      forall c: nat ensures c in init <==> c < n - 1 {
        if c in init {
          var j :| 0 <= j < |init| && init[j] == c;
          assert sent[j] < sent[|sent| - 1];
        }
        assert c < n - 1 ==> c in sent;
      }
      AllOf(init, n - 1);
      assert Span(0, n) == Span(0, n - 1) + [n - 1];
    } else {
      NoneOf(sent);
    }
  }

  lemma NoneOf(sent: seq<nat>)
    requires forall c: nat :: c !in sent
    ensures sent == []
  {
    HasFirst(sent);
  }

  lemma HasFirst(sent: seq<nat>)
    ensures sent != [] ==> exists c: nat :: c in sent
  {
    assert sent != [] ==> sent[0] in sent;
  }

  /** start_send transmits chunk after chunk from the first one on: as many as the
      configuration names, all of them when it names none. */
  lemma StartSends(total: nat, configured: nat, clock: Clock)
    requires 0 < total < 65536
    ensures var r := Start(total, configured, clock);
      var width := if configured != 0 then configured else total;
      && r.log == Span(0, Min(total, width)) && r.next == |r.log|
      && r.total == total && r.inflight == width && r.ackBase == 0
      && forall c: nat :: c < total ==> !r.acked[c] && exists k: nat :: k < r.tick && clock(k) == r.lastTx[c]
  {
    hide Advance;
    var s := Fresh(total, configured, clock);
    var sent := CursorSends(s, clock);
    var r := Advance(s, clock);
    AllOf(sent, r.next);
    assert [] + sent == sent;
    forall c: nat | c < total ensures exists k: nat :: k < r.tick && clock(k) == r.lastTx[c] {
      if c in sent {
        assert ReadBetween(s.tick, r.tick, clock, r.lastTx[c]);
      } else {
        assert clock(0) == r.lastTx[c];
      }
    }
  }
}
