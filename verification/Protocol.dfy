/** One message from sender to receiver under Selective Repeat: a sender, packets that
    may be lost, repeated and reordered, any number of receiving workers, the poller,
    pump, and a first-in first-out control connection, all interleaved. */
module Protocol {
  import opened WordBits
  import opened Geometry
  import opened Control
  import opened Wire
  import opened SrSender
  import opened SrReceiver

  /** A worker between two of its steps. */
  datatype Worker =
    | Waiting
    | Arrived(packet: Packet)                 // read from the socket, not yet checked
    | Writing(packet: Packet, written: nat)   // found new; so many bytes copied

  /** The poller at a chunk: how many words of it have been scanned and found full.
      `sweep` remembers which chunks were complete when this pass over the chunks began. */
  datatype Poller = Poller(chunk: nat, scanned: nat, sweep: set<nat>)

  /** pump between its calls, or inside one that began with the bitmap `before`. */
  datatype Pump = Resting | Pumping(before: seq<bool>)

  /** Where SRSender is: not started, in its own loop, inside sdr_send_poll, or returned. */
  datatype Mode = NotStarted | Polling | Draining | Returned(rc: int)

  datatype State = State(
    sender: Sender, mode: Mode, connected: bool,
    control: seq<ControlMessage>,
    buffer: seq<byte>, received: set<nat>, workers: seq<Worker>,
    frontend: seq<bool>, poller: Poller, pump: Pump, finished: bool)

  datatype Step =
    | StartSend(configured: nat, clock: Clock)
    | Deliver(rtoMs: nat, clock: Clock)
    | Timeout(rtoMs: nat, clock: Clock)
    | Disconnect
    | Take(w: nat, p: nat)
    | Check(w: nat)
    | Write(w: nat)
    | Publish(w: nat)
    | PollSkip
    | PollScan
    | PollMark
    | PollAgain
    | PumpStart
    | PumpSend(msg: ControlMessage)
    | Finish

  // ---- what the steps look at ----

  /** A packet is on the network, for ever, once its chunk has been transmitted. */
  predicate Sent(m: Outgoing, s: State, p: nat)
    requires m.Valid()
  {
    p < m.layout.Packets() && ChunkOf(m.layout.ppc, p) in s.sender.log
  }

  ghost predicate ChunkIn(m: Outgoing, received: set<nat>, c: nat)
    requires m.Valid()
  {
    forall p: nat :: p < m.layout.Packets() && ChunkOf(m.layout.ppc, p) == c ==> p in received
  }

  function FirstWord(m: Outgoing, c: nat): nat {
    ChunkLo(m.layout.ppc, c) / WORD_BITS
  }

  function LastWord(m: Outgoing, c: nat): nat
    requires m.Valid() && c < m.layout.Chunks()
  {
    m.layout.ChunkRange(c);
    (ChunkHi(m.layout.Packets(), m.layout.ppc, c) - 1) / WORD_BITS
  }

  /** All packets of chunk c whose bits lie in word w are received. */
  ghost predicate WordFull(m: Outgoing, received: set<nat>, c: nat, w: nat)
    requires m.Valid()
  {
    forall p: nat :: p < m.layout.Packets() && ChunkOf(m.layout.ppc, p) == c && p / WORD_BITS == w ==> p in received
  }

  function Verdict(kind: Kind): ControlMessage {
    ControlMessage(kind, 0, 0, [], [], Gap(0, 0))
  }

  // ---- the steps ----

  ghost predicate Enabled(m: Outgoing, s: State, step: Step)
    requires m.Valid()
  {
    match step
    case StartSend(_, _) => s.mode == NotStarted
    case Deliver(_, _) => s.mode in {Polling, Draining} && s.connected && s.control != []
    case Timeout(_, _) => s.mode == Polling || (s.mode == Draining && !s.connected)
    case Disconnect => true
    case Take(w, p) => w < |s.workers| && s.workers[w] == Waiting && Sent(m, s, p)
    case Check(w) => w < |s.workers| && s.workers[w].Arrived?
    case Write(w) =>
      w < |s.workers| && s.workers[w].Writing? && s.workers[w].written < |s.workers[w].packet.payload|
    case Publish(w) =>
      w < |s.workers| && s.workers[w].Writing? && s.workers[w].written == |s.workers[w].packet.payload|
    case PollSkip => !s.finished && s.poller.chunk < |s.frontend| && s.frontend[s.poller.chunk]
    case PollScan => PollerScanning(m, s)
    case PollMark =>
      && !s.finished && s.poller.chunk < m.layout.Chunks() && |s.frontend| == m.layout.Chunks()
      && FirstWord(m, s.poller.chunk) + s.poller.scanned > LastWord(m, s.poller.chunk)
    case PollAgain => !s.finished && s.poller.chunk >= m.layout.Chunks()
    case PumpStart => !s.finished && s.pump == Resting
    case PumpSend(msg) => s.pump.Pumping? && Honest(s.pump.before, s.frontend, msg)
    case Finish => !s.finished && s.pump == Resting && forall w :: 0 <= w < |s.workers| ==> !s.workers[w].Writing?
  }

  ghost predicate PollerScanning(m: Outgoing, s: State)
    requires m.Valid()
  {
    && !s.finished && s.poller.chunk < m.layout.Chunks() && |s.frontend| == m.layout.Chunks()
    && FirstWord(m, s.poller.chunk) + s.poller.scanned <= LastWord(m, s.poller.chunk)
    && !s.frontend[s.poller.chunk]
  }

  /** One turn of the sender on the message at the head of the connection. */
  ghost function OnMessage(s: State, rtoMs: nat, clock: Clock): State
    requires s.control != [] && s.sender.Shaped()
  {
    var msg := s.control[0];
    var t := s.(control := s.control[1..]);
    if s.mode == Polling then
      match msg.kind
      case SrAck =>
        t.(sender := HandleAck(s.sender, msg, clock), mode := if AckIsFinal(msg) then Returned(0) else Polling)
      case SrNack => t.(sender := HandleNack(s.sender, msg, clock))
      case CompleteAck => t.(mode := Returned(0))
      case IncompleteNack => t.(mode := Returned(-1))
      case _ => t.(mode := Draining)
    else
      match msg.kind
      case CompleteAck => t.(mode := Returned(0))
      case IncompleteNack => t.(sender := HandleTimeout(s.sender, rtoMs, clock), mode := Polling)
      case _ => t
  }

  /** A read that brought nothing: poll goes to sdr_send_poll, which waits as long as the
      connection is up, reports failure when it goes down while waiting, and reports
      success when it was down already. */
  ghost function OnTimeout(s: State, rtoMs: nat, clock: Clock): State
    requires s.sender.Shaped()
  {
    if s.mode == Polling then s.(mode := if s.connected then Draining else Returned(0))
    else s.(sender := HandleTimeout(s.sender, rtoMs, clock), mode := Polling)
  }

  /** Hearing a message takes it and moves the sender, and nothing else. */
  lemma MessageTaken(s: State, rtoMs: nat, clock: Clock)
    requires s.control != [] && s.sender.Shaped()
    ensures var t := OnMessage(s, rtoMs, clock);
      t == s.(sender := t.sender, mode := t.mode, control := s.control[1..])
  {
    hide HandleAck;
    hide HandleNack;
    hide HandleTimeout;
  }

  lemma TimeoutTaken(s: State, rtoMs: nat, clock: Clock)
    requires s.sender.Shaped()
    ensures var t := OnTimeout(s, rtoMs, clock); t == s.(sender := t.sender, mode := t.mode)
  {
    hide HandleTimeout;
  }

  /** The sender's arrays and the receiver's buffer have the sizes they were given. */
  ghost predicate Ready(m: Outgoing, s: State) {
    s.sender.Shaped() && |s.buffer| == m.layout.length
  }

  /** The state after a step; a step that is not enabled changes nothing. */
  ghost function Next(m: Outgoing, s: State, step: Step): (t: State)
    requires m.Valid() && Ready(m, s)
    ensures Ready(m, t)
  {
    if !Enabled(m, s, step) then s else
      match step
      case StartSend(configured, clock) =>
        s.(sender := Start(m.layout.Chunks(), configured, clock), mode := Polling)
      case Deliver(rtoMs, clock) => OnMessage(s, rtoMs, clock)
      case Timeout(rtoMs, clock) => OnTimeout(s, rtoMs, clock)
      case Disconnect => s.(connected := false)
      case Take(w, p) => s.(workers := s.workers[w := Arrived(m.DataPacket(p))])
      case Check(w) =>
        var packet := s.workers[w].packet;
        s.(workers := s.workers[w := if s.finished || packet.header.packetOffset in s.received
                                     then Waiting else Writing(packet, 0)])
      case Write(w) =>
        var Writing(packet, k) := s.workers[w];
        var at := packet.header.packetOffset * m.layout.mtu + k;
        s.(workers := s.workers[w := Writing(packet, k + 1)],
           buffer := if at < |s.buffer| then s.buffer[at := packet.payload[k]] else s.buffer)
      case Publish(w) =>
        var p := s.workers[w].packet.header.packetOffset;
        s.(workers := s.workers[w := Waiting],
           received := if p < m.layout.Packets() then s.received + {p} else s.received)
      case PollSkip => s.(poller := s.poller.(chunk := s.poller.chunk + 1, scanned := 0))
      case PollScan =>
        var c := s.poller.chunk;
        if WordFull(m, s.received, c, FirstWord(m, c) + s.poller.scanned)
        then s.(poller := s.poller.(scanned := s.poller.scanned + 1))
        else s.(poller := s.poller.(chunk := c + 1, scanned := 0))
      case PollMark =>
        var c := s.poller.chunk;
        s.(frontend := s.frontend[c := true], poller := s.poller.(chunk := c + 1, scanned := 0))
      case PollAgain =>
        s.(poller := Poller(0, 0, set c: nat | c < m.layout.Chunks() && ChunkIn(m, s.received, c)))
      case PumpStart => s.(pump := Pumping(s.frontend))
      case PumpSend(msg) => s.(pump := Resting, control := s.control + [msg])
      case Finish =>
        s.(finished := true,
           control := s.control + [Verdict(if AllDone(s.frontend, 0, |s.frontend|) then CompleteAck
                                           else IncompleteNack)])
  }

  ghost predicate Init(m: Outgoing, s: State)
    requires m.Valid()
  {
    && s.sender.total == m.layout.Chunks() && s.sender.Shaped()
    && s.sender.ackBase == 0 && s.sender.next == 0 && s.sender.log == []
    && (forall c :: 0 <= c < s.sender.total ==> !s.sender.acked[c])
    && s.mode == NotStarted && s.control == []
    && |s.buffer| == m.layout.length && s.received == {}
    && (forall w :: 0 <= w < |s.workers| ==> s.workers[w] == Waiting)
    && |s.frontend| == m.layout.Chunks() && (forall c :: 0 <= c < |s.frontend| ==> !s.frontend[c])
    && s.poller == Poller(0, 0, {}) && s.pump == Resting && !s.finished
  }
}
