/** What every interleaving keeps, and what it means when poll returns 0. */
module ProtocolSafety {
  import opened WordBits
  import opened Geometry
  import opened Control
  import opened Wire
  import opened SrSender
  import opened SrReceiver
  import opened Protocol

  // ---- the invariant, part by part ----

  ghost predicate Landed(m: Outgoing, buffer: seq<byte>, lo: nat, hi: nat) {
    |buffer| == |m.data| && forall b :: lo <= b < hi && b < |buffer| ==> buffer[b] == m.data[b]
  }

  ghost predicate PacketIn(m: Outgoing, s: State, p: nat)
    requires m.Valid()
  {
    Sent(m, s, p) && Landed(m, s.buffer, m.layout.PacketLo(p), m.layout.PacketHi(p))
  }

  /** Write before publish: a set packet bit means that the packet was sent and that its
      bytes are in the buffer. */
  ghost predicate PacketsTrue(m: Outgoing, s: State)
    requires m.Valid()
  {
    |s.buffer| == m.layout.length && forall p: nat :: p in s.received ==> PacketIn(m, s, p)
  }

  ghost predicate Carries(m: Outgoing, s: State, packet: Packet)
    requires m.Valid()
  {
    Sent(m, s, packet.header.packetOffset) && packet == m.DataPacket(packet.header.packetOffset)
  }

  ghost predicate WorkerTrue(m: Outgoing, s: State, worker: Worker)
    requires m.Valid()
  {
    match worker
    case Waiting => true
    case Arrived(packet) => Carries(m, s, packet)
    case Writing(packet, k) =>
      && Carries(m, s, packet) && k <= |packet.payload|
      && var lo := m.layout.PacketLo(packet.header.packetOffset);
         Landed(m, s.buffer, lo, lo + k)
  }

  ghost predicate WorkersTrue(m: Outgoing, s: State)
    requires m.Valid()
  {
    forall w :: 0 <= w < |s.workers| ==> WorkerTrue(m, s, s.workers[w])
  }

  /** A set chunk bit means that every packet bit of the chunk is set. */
  ghost predicate ChunksTrue(m: Outgoing, s: State)
    requires m.Valid()
  {
    && |s.frontend| == m.layout.Chunks()
    && forall c: nat :: c < |s.frontend| && s.frontend[c] ==> ChunkIn(m, s.received, c)
  }

  /** The words of the poller's chunk that it has scanned are full, and a pass over the
      chunks marks every chunk that was complete when the pass began. */
  ghost predicate PollerTrue(m: Outgoing, s: State)
    requires m.Valid()
  {
    var poller := s.poller;
    && |s.frontend| == m.layout.Chunks()
    && poller.chunk <= m.layout.Chunks()
    && (forall w: nat :: FirstWord(m, poller.chunk) <= w < FirstWord(m, poller.chunk) + poller.scanned ==>
          WordFull(m, s.received, poller.chunk, w))
    && (forall c: nat :: c in poller.sweep ==>
          && c < m.layout.Chunks() && ChunkIn(m, s.received, c)
          && (c < poller.chunk ==> s.frontend[c]))
  }

  /** Everything acked is complete at the receiver. */
  ghost predicate AckedTrue(s: State) {
    && s.sender.Shaped() && |s.frontend| == s.sender.total
    && forall c :: 0 <= c < |s.frontend| && s.sender.acked[c] ==> s.frontend[c]
  }

  /** Every claim of a message is true. */
  ghost predicate MessageTrue(frontend: seq<bool>, msg: ControlMessage) {
    && msg.kind in {SrAck, SrNack, CompleteAck, IncompleteNack}
    && Ascending(Expand(msg.gaps))
    && (msg.kind in {SrAck, SrNack} ==>
          && msg.totalChunks == |frontend|
          && (msg.cumulative == UINT32_MAX || msg.cumulative < |frontend|)
          && (forall c: nat :: msg.Claims(c) ==> c < |frontend| && frontend[c]))
    && (msg.kind == CompleteAck ==> AllDone(frontend, 0, |frontend|))
  }

  ghost predicate QueueTrue(s: State) {
    forall i :: 0 <= i < |s.control| ==> MessageTrue(s.frontend, s.control[i])
  }

  /** A chunk reported missing by message i is claimed by no message up to i. */
  ghost predicate GapFresh(s: State, i: nat, c: nat) {
    && c < s.sender.total && s.sender.Shaped() && !s.sender.acked[c]
    && forall j :: 0 <= j <= i && j < |s.control| ==> !Reports(s.control[j], c)
  }

  predicate Reports(msg: ControlMessage, c: nat) {
    msg.kind in {SrAck, SrNack} && msg.Claims(c)
  }

  ghost predicate GapsFresh(s: State) {
    forall i, c: nat :: 0 <= i < |s.control| && c in Expand(s.control[i].gaps) ==> GapFresh(s, i, c)
  }

  /** While pump runs, nothing is claimed that was not complete when it began. */
  ghost predicate PumpTrue(s: State) {
    s.pump.Pumping? ==>
      && |s.pump.before| == |s.frontend| && s.sender.Shaped() && |s.frontend| == s.sender.total
      && (forall c :: 0 <= c < |s.frontend| && s.pump.before[c] ==> s.frontend[c])
      && (forall c :: 0 <= c < |s.frontend| && s.sender.acked[c] ==> s.pump.before[c])
      && (forall i, c: nat :: 0 <= i < |s.control| && Reports(s.control[i], c) && c < |s.frontend| ==> s.pump.before[c])
  }

  ghost predicate SenderTrue(m: Outgoing, s: State)
    requires m.Valid()
  {
    && s.sender.total == m.layout.Chunks() && CursorBounds(s.sender)
    && (s.mode == NotStarted ==>
          s.sender.log == [] && s.sender.next == 0 && s.sender.ackBase == 0)
    && (s.mode != NotStarted ==> CursorLaw(s.sender))
    && (s.mode == Returned(0) && s.connected ==> AllDone(s.frontend, 0, |s.frontend|))
  }

  ghost predicate Inv(m: Outgoing, s: State)
    requires m.Valid()
  {
    && SenderTrue(m, s)
    && PacketsTrue(m, s) && WorkersTrue(m, s)
    && ChunksTrue(m, s) && PollerTrue(m, s)
    && AckedTrue(s) && QueueTrue(s) && GapsFresh(s) && PumpTrue(s)
  }

  lemma InitInv(m: Outgoing, s: State)
    requires m.Valid() && Init(m, s)
    ensures Inv(m, s)
  {
  }

  // ---- receiver steps ----

  /** A step that leaves the sender side and the chunk bits alone. */
  ghost predicate SameAbove(s: State, t: State) {
    && t.sender == s.sender && t.mode == s.mode && t.connected == s.connected && t.control == s.control
    && t.frontend == s.frontend && t.pump == s.pump && t.poller == s.poller
  }

  /** A byte of the message itself never spoils what has landed. */
  lemma LandedByte(m: Outgoing, buffer: seq<byte>, at: nat, lo: nat, hi: nat)
    requires at < |buffer| && |buffer| == |m.data| && Landed(m, buffer, lo, hi)
    ensures Landed(m, buffer[at := m.data[at]], lo, hi)
  {
  }

  lemma TakeKeeps(m: Outgoing, s: State, w: nat, p: nat)
    requires m.Valid() && Inv(m, s) && Enabled(m, s, Take(w, p))
    ensures Inv(m, Next(m, s, Take(w, p)))
  {
    WorkerStepKeeps(m, s, Next(m, s, Take(w, p)), w);
  }

  lemma CheckKeeps(m: Outgoing, s: State, w: nat)
    requires m.Valid() && Inv(m, s) && Enabled(m, s, Check(w))
    ensures Inv(m, Next(m, s, Check(w)))
  {
    assert WorkerTrue(m, s, s.workers[w]);
    WorkerStepKeeps(m, s, Next(m, s, Check(w)), w);
  }

  /** A worker that only changes its own position. */
  lemma WorkerStepKeeps(m: Outgoing, s: State, t: State, w: nat)
    requires m.Valid() && Inv(m, s) && w < |s.workers| && |t.workers| == |s.workers|
    requires t == s.(workers := s.workers[w := t.workers[w]]) && WorkerTrue(m, s, t.workers[w])
    ensures Inv(m, t)
  {
    assert PacketsTrue(m, t) by {
      forall p: nat | p in t.received ensures PacketIn(m, t, p) {
        assert PacketIn(m, s, p);
      }
    }
    assert WorkersTrue(m, t) by {
      forall v | 0 <= v < |t.workers| ensures WorkerTrue(m, t, t.workers[v]) {
        assert WorkerTrue(m, s, s.workers[v]);
      }
    }
    UpperKept(m, s, t);
  }

  lemma UpperKept(m: Outgoing, s: State, t: State)
    requires m.Valid() && Inv(m, s) && SameAbove(s, t) && s.received <= t.received
    ensures SenderTrue(m, t) && ChunksTrue(m, t) && PollerTrue(m, t)
    ensures AckedTrue(t) && QueueTrue(t) && GapsFresh(t) && PumpTrue(t)
  {
    ArrivalsKeepChunks(m, s, t);
    SameGaps(s, t);
  }

  lemma SameGaps(s: State, t: State)
    requires GapsFresh(s) && t.control == s.control && t.sender == s.sender
    ensures GapsFresh(t)
  {
    forall i, c: nat | 0 <= i < |t.control| && c in Expand(t.control[i].gaps) ensures GapFresh(t, i, c) {
      assert GapFresh(s, i, c);
    }
  }

  lemma ArrivalsKeepChunks(m: Outgoing, s: State, t: State)
    requires m.Valid() && ChunksTrue(m, s) && PollerTrue(m, s)
    requires s.received <= t.received && t.frontend == s.frontend && t.poller == s.poller
    ensures ChunksTrue(m, t) && PollerTrue(m, t)
  {
    forall c: nat | ChunkIn(m, s.received, c) ensures ChunkIn(m, t.received, c) {
    }
    var first := FirstWord(m, s.poller.chunk);
    forall w: nat | first <= w < first + s.poller.scanned ensures WordFull(m, t.received, s.poller.chunk, w) {
      assert WordFull(m, s.received, s.poller.chunk, w);
    }
  }

  /** One byte of the message has been written where it belongs. */
  ghost predicate OneByte(m: Outgoing, s: State, t: State, at: nat) {
    && at < |s.buffer| == |m.data| && t.buffer == s.buffer[at := m.data[at]]
    && t.sender == s.sender && t.received == s.received
  }

  lemma BytePackets(m: Outgoing, s: State, t: State, at: nat)
    requires m.Valid() && PacketsTrue(m, s) && OneByte(m, s, t, at)
    ensures PacketsTrue(m, t)
  {
    forall q: nat | q in t.received ensures PacketIn(m, t, q) {
      assert PacketIn(m, s, q);
      LandedByte(m, s.buffer, at, m.layout.PacketLo(q), m.layout.PacketHi(q));
    }
  }

  lemma ByteWorker(m: Outgoing, s: State, t: State, at: nat, worker: Worker)
    requires m.Valid() && OneByte(m, s, t, at) && WorkerTrue(m, s, worker)
    ensures WorkerTrue(m, t, worker)
  {
    if worker.Writing? {
      var lo := m.layout.PacketLo(worker.packet.header.packetOffset);
      LandedByte(m, s.buffer, at, lo, lo + worker.written);
    }
  }

  lemma WriteEffect(m: Outgoing, s: State, w: nat) returns (at: nat)
    requires m.Valid() && Ready(m, s) && Enabled(m, s, Write(w)) && WorkerTrue(m, s, s.workers[w])
    ensures var t := Next(m, s, Write(w));
      && OneByte(m, s, t, at) && SameAbove(s, t)
      && |t.workers| == |s.workers| && t.workers == s.workers[w := t.workers[w]]
      && WorkerTrue(m, t, t.workers[w])
  {
    var Writing(packet, k) := s.workers[w];
    var p := packet.header.packetOffset;
    m.layout.PacketSlice(p);
    at := m.layout.PacketLo(p) + k;
    assert packet.payload[k] == m.data[at];
  }

  lemma WriteKeeps(m: Outgoing, s: State, w: nat)
    requires m.Valid() && Inv(m, s) && Enabled(m, s, Write(w))
    ensures Inv(m, Next(m, s, Write(w)))
  {
    hide Next;
    hide OneByte;
    hide WorkerTrue;
    hide PacketsTrue;
    InvReady(m, s);
    var t := Next(m, s, Write(w));
    assert WorkerTrue(m, s, s.workers[w]);
    var at := WriteEffect(m, s, w);
    BytePackets(m, s, t, at);
    forall v | 0 <= v < |t.workers| && v != w ensures WorkerTrue(m, t, t.workers[v]) {
      assert WorkerTrue(m, s, s.workers[v]);
      ByteWorker(m, s, t, at, t.workers[v]);
    }
    SameReceived(m, s, t, at);
    UpperKept(m, s, t);
  }

  lemma SameReceived(m: Outgoing, s: State, t: State, at: nat)
    requires OneByte(m, s, t, at)
    ensures s.received <= t.received
  {
  }

  lemma PublishKeeps(m: Outgoing, s: State, w: nat)
    requires m.Valid() && Inv(m, s) && Enabled(m, s, Publish(w))
    ensures Inv(m, Next(m, s, Publish(w)))
  {
    var t := Next(m, s, Publish(w));
    var packet := s.workers[w].packet;
    var p := packet.header.packetOffset;
    assert WorkerTrue(m, s, s.workers[w]);
    m.layout.PacketSlice(p);
    assert |packet.payload| == m.layout.PacketHi(p) - m.layout.PacketLo(p);
    assert PacketsTrue(m, t) by {
      forall q: nat | q in t.received ensures PacketIn(m, t, q) {
        if q != p {
          assert PacketIn(m, s, q);
        }
      }
    }
    assert WorkersTrue(m, t) by {
      forall v | 0 <= v < |t.workers| ensures WorkerTrue(m, t, t.workers[v]) {
        assert WorkerTrue(m, s, s.workers[v]);
      }
    }
    UpperKept(m, s, t);
  }

  // ---- poller steps ----

  lemma ChunkInWordFull(m: Outgoing, received: set<nat>, c: nat, w: nat)
    requires m.Valid() && ChunkIn(m, received, c)
    ensures WordFull(m, received, c, w)
  {
  }

  /** Word after word, a finished scan has seen every packet of the chunk. */
  lemma ScanComplete(m: Outgoing, received: set<nat>, c: nat, scanned: nat)
    requires m.Valid() && c < m.layout.Chunks()
    requires FirstWord(m, c) + scanned > LastWord(m, c)
    requires forall w: nat :: FirstWord(m, c) <= w < FirstWord(m, c) + scanned ==> WordFull(m, received, c, w)
    ensures ChunkIn(m, received, c)
  {
    forall p: nat | p < m.layout.Packets() && ChunkOf(m.layout.ppc, p) == c ensures p in received {
      ChunkMembers(m.layout.Packets(), m.layout.ppc, c, p);
      m.layout.ChunkRange(c);
      assert WordFull(m, received, c, p / WORD_BITS);
    }
  }

  /** A step that moves the poller, and may set chunk bits. */
  ghost predicate PollerMoved(s: State, t: State) {
    && t == s.(frontend := t.frontend, poller := t.poller)
    && |t.frontend| == |s.frontend|
    && forall c :: 0 <= c < |s.frontend| && s.frontend[c] ==> t.frontend[c]
  }

  lemma PollerKeepsOthers(m: Outgoing, s: State, t: State)
    requires m.Valid() && Inv(m, s) && PollerMoved(s, t)
    requires ChunksTrue(m, t) && PollerTrue(m, t)
    ensures Inv(m, t)
  {
    assert PacketsTrue(m, t) by {
      forall p: nat | p in t.received ensures PacketIn(m, t, p) {
        assert PacketIn(m, s, p);
      }
    }
    assert WorkersTrue(m, t) by {
      forall v | 0 <= v < |t.workers| ensures WorkerTrue(m, t, t.workers[v]) {
        assert WorkerTrue(m, s, s.workers[v]);
      }
    }
    SameGaps(s, t);
    forall i | 0 <= i < |t.control| ensures MessageTrue(t.frontend, t.control[i]) {
      assert MessageTrue(s.frontend, s.control[i]);
    }
  }

  lemma PollSkipKeeps(m: Outgoing, s: State)
    requires m.Valid() && Inv(m, s) && Enabled(m, s, PollSkip)
    ensures Inv(m, Next(m, s, PollSkip))
  {
    hide SenderTrue;
    hide PacketsTrue;
    hide WorkersTrue;
    hide AckedTrue;
    hide QueueTrue;
    hide GapsFresh;
    hide PumpTrue;
    InvReady(m, s);
    PollerKeepsOthers(m, s, Next(m, s, PollSkip));
  }

  lemma PollScanKeeps(m: Outgoing, s: State)
    requires m.Valid() && Inv(m, s) && Enabled(m, s, PollScan)
    ensures Inv(m, Next(m, s, PollScan))
  {
    var c := s.poller.chunk;
    if c in s.poller.sweep {
      ChunkInWordFull(m, s.received, c, FirstWord(m, c) + s.poller.scanned);
    }
    PollerKeepsOthers(m, s, Next(m, s, PollScan));
  }

  lemma PollMarkKeeps(m: Outgoing, s: State)
    requires m.Valid() && Inv(m, s) && Enabled(m, s, PollMark)
    ensures Inv(m, Next(m, s, PollMark))
  {
    ScanComplete(m, s.received, s.poller.chunk, s.poller.scanned);
    PollerKeepsOthers(m, s, Next(m, s, PollMark));
  }

  lemma PollAgainKeeps(m: Outgoing, s: State)
    requires m.Valid() && Inv(m, s) && Enabled(m, s, PollAgain)
    ensures Inv(m, Next(m, s, PollAgain))
  {
    PollerKeepsOthers(m, s, Next(m, s, PollAgain));
  }

  // ---- pump and completion ----

  /** A step that only touches pump, the completion flag and the tail of the connection. */
  lemma ReportKeepsOthers(m: Outgoing, s: State, t: State)
    requires m.Valid() && Inv(m, s)
    requires t == s.(pump := t.pump, finished := t.finished, control := t.control)
    requires QueueTrue(t) && GapsFresh(t) && PumpTrue(t)
    ensures Inv(m, t)
  {
    assert PacketsTrue(m, t) by {
      forall p: nat | p in t.received ensures PacketIn(m, t, p) {
        assert PacketIn(m, s, p);
      }
    }
    assert WorkersTrue(m, t) by {
      forall v | 0 <= v < |t.workers| ensures WorkerTrue(m, t, t.workers[v]) {
        assert WorkerTrue(m, s, s.workers[v]);
      }
    }
  }

  lemma PumpStartKeeps(m: Outgoing, s: State)
    requires m.Valid() && Inv(m, s) && Enabled(m, s, PumpStart)
    ensures Inv(m, Next(m, s, PumpStart))
  {
    var t := Next(m, s, PumpStart);
    assert PumpTrue(t) by {
      forall i, c: nat | 0 <= i < |t.control| && Reports(t.control[i], c) && c < |t.frontend|
        ensures t.pump.before[c]
      {
        assert MessageTrue(s.frontend, s.control[i]);
      }
    }
    SameGaps(s, t);
    ReportKeepsOthers(m, s, t);
  }

  lemma PumpSendKeeps(m: Outgoing, s: State, msg: ControlMessage)
    requires m.Valid() && Inv(m, s) && Enabled(m, s, PumpSend(msg))
    ensures Inv(m, Next(m, s, PumpSend(msg)))
  {
    var t := Next(m, s, PumpSend(msg));
    HonestIsTrue(s.pump.before, s.frontend, msg);
    AppendTrue(s, t, msg);
    ReportedGapsFresh(s, t, msg);
    hide Honest;
    hide GapsFresh;
    hide QueueTrue;
    ReportKeepsOthers(m, s, t);
  }

  lemma HonestIsTrue(before: seq<bool>, after: seq<bool>, msg: ControlMessage)
    requires Honest(before, after, msg) && |after| < UINT16_VALUES
    ensures MessageTrue(after, msg)
  {
  }

  /** Gaps that pump reports were missing when it began, so nobody has claimed them. */
  lemma ReportedGapsFresh(s: State, t: State, msg: ControlMessage)
    requires GapsFresh(s) && PumpTrue(s) && s.pump.Pumping? && OwesTo(s.pump.before, msg)
    requires t.control == s.control + [msg] && t.sender == s.sender
    ensures GapsFresh(t)
  {
    forall i, c: nat | 0 <= i < |t.control| && c in Expand(t.control[i].gaps) ensures GapFresh(t, i, c) {
      if i < |s.control| {
        assert GapFresh(s, i, c);
      } else {
        assert GapMissing(s.pump.before, msg, c);
      }
    }
  }

  lemma AppendTrue(s: State, t: State, msg: ControlMessage)
    requires QueueTrue(s) && t.control == s.control + [msg] && t.frontend == s.frontend
    requires MessageTrue(s.frontend, msg)
    ensures QueueTrue(t)
  {
    forall i | 0 <= i < |t.control| ensures MessageTrue(t.frontend, t.control[i]) {
      assert i < |s.control| ==> MessageTrue(s.frontend, s.control[i]);
    }
  }

  lemma FinishKeeps(m: Outgoing, s: State)
    requires m.Valid() && Inv(m, s) && Enabled(m, s, Finish)
    ensures Inv(m, Next(m, s, Finish))
  {
    var t := Next(m, s, Finish);
    var msg := t.control[|s.control|];
    AppendTrue(s, t, msg);
    assert GapsFresh(t) by {
      forall i, c: nat | 0 <= i < |t.control| && c in Expand(t.control[i].gaps) ensures GapFresh(t, i, c) {
        if i < |s.control| {
          assert GapFresh(s, i, c);
        }
      }
    }
    ReportKeepsOthers(m, s, t);
  }

  // ---- sender steps ----

  /** A step of the sender alone: chunks acked by it were acked before or claimed by the
      message it took from the head of the connection. */
  ghost predicate SenderMoved(s: State, t: State) {
    && t == s.(sender := t.sender, mode := t.mode, control := t.control)
    && (t.control == s.control || (s.control != [] && t.control == s.control[1..]))
    && s.sender.Shaped() && t.sender.Shaped() && t.sender.total == s.sender.total
    && s.sender.log <= t.sender.log
    && forall c: nat :: c < s.sender.total && t.sender.acked[c] ==>
         s.sender.acked[c] || (t.control != s.control && Reports(s.control[0], c))
  }

  lemma LogGrows(m: Outgoing, s: State, t: State)
    requires m.Valid() && PacketsTrue(m, s) && WorkersTrue(m, s) && SenderMoved(s, t)
    ensures PacketsTrue(m, t) && WorkersTrue(m, t)
  {
    forall p: nat | Sent(m, s, p) ensures Sent(m, t, p) {
      var c := ChunkOf(m.layout.ppc, p);
      var i :| 0 <= i < |s.sender.log| && s.sender.log[i] == c;
      assert t.sender.log[i] == c;
    }
    forall p: nat | p in t.received ensures PacketIn(m, t, p) {
      assert PacketIn(m, s, p);
    }
    forall v | 0 <= v < |t.workers| ensures WorkerTrue(m, t, t.workers[v]) {
      assert WorkerTrue(m, s, s.workers[v]);
    }
  }

  lemma GapsAfterMessage(s: State, t: State)
    requires GapsFresh(s) && SenderMoved(s, t)
    ensures GapsFresh(t)
  {
    var shift := if t.control == s.control then 0 else 1;
    forall i, c: nat | 0 <= i < |t.control| && c in Expand(t.control[i].gaps) ensures GapFresh(t, i, c) {
      assert t.control[i] == s.control[i + shift];
      assert GapFresh(s, i + shift, c);
      forall j | 0 <= j <= i && j < |t.control| ensures !Reports(t.control[j], c) {
        assert t.control[j] == s.control[j + shift];
      }
    }
  }

  lemma QueueAfterMessage(s: State, t: State)
    requires QueueTrue(s) && PumpTrue(s) && AckedTrue(s) && SenderMoved(s, t)
    ensures QueueTrue(t) && PumpTrue(t) && AckedTrue(t)
  {
    var shift := if t.control == s.control then 0 else 1;
    forall i | 0 <= i < |t.control| ensures t.control[i] == s.control[i + shift] {
    }
    if shift == 1 {
      assert MessageTrue(s.frontend, s.control[0]);
    }
    forall i | 0 <= i < |t.control| ensures MessageTrue(t.frontend, t.control[i]) {
      assert MessageTrue(s.frontend, s.control[i + shift]);
    }
    if t.pump.Pumping? {
      forall i, c: nat | 0 <= i < |t.control| && Reports(t.control[i], c) && c < |t.frontend|
        ensures t.pump.before[c]
      {
        assert Reports(s.control[i + shift], c);
      }
    }
  }

  lemma SenderStepKeeps(m: Outgoing, s: State, t: State)
    requires m.Valid() && Inv(m, s) && SenderMoved(s, t) && SenderTrue(m, t)
    ensures Inv(m, t)
  {
    LogGrows(m, s, t);
    GapsAfterMessage(s, t);
    QueueAfterMessage(s, t);
  }

  lemma StartSendKeeps(m: Outgoing, s: State, configured: nat, clock: Clock)
    requires m.Valid() && Inv(m, s) && Enabled(m, s, StartSend(configured, clock))
    ensures Inv(m, Next(m, s, StartSend(configured, clock)))
  {
    var t := Next(m, s, StartSend(configured, clock));
    StartCursor(m.layout.Chunks(), configured, clock);
    StartAcksNothing(m.layout.Chunks(), configured, clock);
    SenderStepKeeps(m, s, t);
  }

  lemma StartAcksNothing(total: nat, configured: nat, clock: Clock)
    ensures forall c :: 0 <= c < total ==> !Start(total, configured, clock).acked[c]
  {
    AdvanceReachesEdge(Fresh(total, configured, clock), clock);
  }

  /** An SR_ACK ends the loop only when its prefix is the whole message. */
  lemma FinalAck(frontend: seq<bool>, msg: ControlMessage)
    requires 0 < |frontend| < UINT16_VALUES && MessageTrue(frontend, msg) && msg.kind == SrAck && AckIsFinal(msg)
    ensures AllDone(frontend, 0, |frontend|)
  {
    forall c: nat | c < |frontend| ensures frontend[c] {
      assert msg.Claims(c);
    }
  }

  lemma DeliverKeeps(m: Outgoing, s: State, rtoMs: nat, clock: Clock)
    requires m.Valid() && Inv(m, s) && Enabled(m, s, Deliver(rtoMs, clock))
    ensures Inv(m, Next(m, s, Deliver(rtoMs, clock)))
  {
    MessageMoves(m, s, rtoMs, clock);
    MessageLeavesTrue(m, s, rtoMs, clock);
    SenderStepKeeps(m, s, OnMessage(s, rtoMs, clock));
  }

  lemma MessageMoves(m: Outgoing, s: State, rtoMs: nat, clock: Clock)
    requires m.Valid() && SenderTrue(m, s) && s.mode in {Polling, Draining} && s.control != []
    ensures SenderMoved(s, OnMessage(s, rtoMs, clock))
  {
    MessageHandled(m, s, rtoMs, clock);
    var t := OnMessage(s, rtoMs, clock);
    assert t.control != s.control by { assert |t.control| < |s.control|; }
  }

  /** The handler of a message does to the sender what was proved of handlers. */
  lemma MessageHandled(m: Outgoing, s: State, rtoMs: nat, clock: Clock)
    requires m.Valid() && SenderTrue(m, s) && s.mode in {Polling, Draining} && s.control != []
    ensures s.sender.Shaped()
    ensures OnMessage(s, rtoMs, clock).mode != NotStarted
    ensures var msg, r := s.control[0], OnMessage(s, rtoMs, clock).sender;
      && CursorLaw(r) && Follows(s.sender, r)
      && forall c: nat :: c < s.sender.total && r.acked[c] ==> s.sender.acked[c] || Reports(msg, c)
  {
    hide HandleAck;
    hide HandleNack;
    hide HandleTimeout;
    hide CursorLaw;
    var msg := s.control[0];
    LawShapes(s.sender);
    if s.mode == Polling {
      if msg.kind == SrAck {
        AckHandled(s.sender, msg, clock);
      } else if msg.kind == SrNack {
        NackHandled(s.sender, msg, clock);
      }
    } else if msg.kind == IncompleteNack {
      TimeoutHandled(s.sender, rtoMs, clock);
    }
  }

  lemma LawShapes(s: Sender)
    ensures CursorLaw(s) ==> s.Shaped()
  {
  }

  lemma MessageLeavesTrue(m: Outgoing, s: State, rtoMs: nat, clock: Clock)
    requires m.Valid() && SenderTrue(m, s) && s.mode in {Polling, Draining} && s.control != []
    requires MessageTrue(s.frontend, s.control[0]) && |s.frontend| == m.layout.Chunks()
    ensures s.sender.Shaped() && SenderTrue(m, OnMessage(s, rtoMs, clock))
  {
    MessageHandled(m, s, rtoMs, clock);
    m.layout.HasChunk();
    if s.mode == Polling && s.control[0].kind == SrAck && AckIsFinal(s.control[0]) {
      FinalAck(s.frontend, s.control[0]);
    }
  }

  lemma TimeoutKeeps(m: Outgoing, s: State, rtoMs: nat, clock: Clock)
    requires m.Valid() && Inv(m, s) && Enabled(m, s, Timeout(rtoMs, clock))
    ensures Inv(m, Next(m, s, Timeout(rtoMs, clock)))
  {
    if s.mode != Polling {
      TimeoutHandled(s.sender, rtoMs, clock);
    }
    SenderStepKeeps(m, s, OnTimeout(s, rtoMs, clock));
  }

  lemma DisconnectKeeps(m: Outgoing, s: State)
    requires m.Valid() && Inv(m, s)
    ensures Inv(m, Next(m, s, Disconnect))
  {
    var t := Next(m, s, Disconnect);
    assert PacketsTrue(m, t) by {
      forall p: nat | p in t.received ensures PacketIn(m, t, p) {
        assert PacketIn(m, s, p);
      }
    }
    assert WorkersTrue(m, t) by {
      forall v | 0 <= v < |t.workers| ensures WorkerTrue(m, t, t.workers[v]) {
        assert WorkerTrue(m, s, s.workers[v]);
      }
    }
    SameGaps(s, t);
  }

  // ---- every run ----

  lemma InvReady(m: Outgoing, s: State)
    requires m.Valid() && Inv(m, s)
    ensures Ready(m, s)
  {
  }

  lemma StepRefused(m: Outgoing, s: State, step: Step)
    requires m.Valid() && Ready(m, s) && !Enabled(m, s, step)
    ensures Next(m, s, step) == s
  {
  }

  lemma StepKeeps(m: Outgoing, s: State, step: Step)
    requires m.Valid() && Inv(m, s)
    ensures Ready(m, s) && Inv(m, Next(m, s, step))
  {
    hide *;
    InvReady(m, s);
    if !Enabled(m, s, step) {
      StepRefused(m, s, step);
    } else {
      match step
      case StartSend(configured, clock) => StartSendKeeps(m, s, configured, clock);
      case Deliver(rtoMs, clock) => DeliverKeeps(m, s, rtoMs, clock);
      case Timeout(rtoMs, clock) => TimeoutKeeps(m, s, rtoMs, clock);
      case Disconnect => DisconnectKeeps(m, s);
      case Take(w, p) => TakeKeeps(m, s, w, p);
      case Check(w) => CheckKeeps(m, s, w);
      case Write(w) => WriteKeeps(m, s, w);
      case Publish(w) => PublishKeeps(m, s, w);
      case PollSkip => PollSkipKeeps(m, s);
      case PollScan => PollScanKeeps(m, s);
      case PollMark => PollMarkKeeps(m, s);
      case PollAgain => PollAgainKeeps(m, s);
      case PumpStart => PumpStartKeeps(m, s);
      case PumpSend(msg) => PumpSendKeeps(m, s, msg);
      case Finish => FinishKeeps(m, s);
    }
  }

  /** The states of a run: from s, each the next of the one before by the next step. */
  ghost predicate Run(m: Outgoing, states: seq<State>, steps: seq<Step>)
    requires m.Valid()
  {
    && |states| == |steps| + 1
    && Init(m, states[0])
    && forall i :: 0 <= i < |steps| ==> StepTaken(m, states[i], steps[i], states[i + 1])
  }

  ghost predicate StepTaken(m: Outgoing, s: State, step: Step, t: State)
    requires m.Valid()
  {
    Ready(m, s) && t == Next(m, s, step)
  }

  lemma {:induction false} RunKeeps(m: Outgoing, states: seq<State>, steps: seq<Step>, i: nat)
    requires m.Valid() && Run(m, states, steps) && i < |states|
    ensures Inv(m, states[i])
  {
    hide Inv;
    hide Next;
    if i == 0 {
      InitInv(m, states[0]);
    } else {
      RunKeeps(m, states, steps, i - 1);
      assert StepTaken(m, states[i - 1], steps[i - 1], states[i]);
      StepKeeps(m, states[i - 1], steps[i - 1]);
    }
  }
}
