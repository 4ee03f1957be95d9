/** Opening a message: OFFER, negotiation, CTS, ACCEPT, and where data packets may go. */
module Handshake {
  import opened Geometry
  import opened Wire

  const DEFAULT_PORT: nat := 9999
  const OFFER_CHUNK_PACKETS: nat := 32
  const LOCAL_CHUNK_PACKETS: nat := 64

  /** The negotiated fields of ConnectionParams; 0 stands for unset. */
  datatype Params = Params(
    transferId: nat, totalBytes: nat, mtuBytes: nat, packetsPerChunk: nat,
    numChannels: nat, channelBasePort: nat, udpServerPort: nat)
  {
    predicate Fits() {
      && transferId < UINT32_VALUES && mtuBytes < UINT32_VALUES
      && packetsPerChunk < UINT16_VALUES && numChannels < UINT16_VALUES
      && channelBasePort < UINT16_VALUES && udpServerPort < UINT16_VALUES
    }
  }

  function FirstSet(a: nat, b: nat, c: nat): nat {
    if a != 0 then a else if b != 0 then b else c
  }

  /** What sdr_send_post proposes. */
  function Proposal(desired: Params, length: nat): Params {
    desired.(totalBytes := length,
             mtuBytes := FirstSet(desired.mtuBytes, MAX_PAYLOAD_SIZE, 0),
             packetsPerChunk := FirstSet(desired.packetsPerChunk, OFFER_CHUNK_PACKETS, 0),
             numChannels := FirstSet(desired.numChannels, 1, 0),
             udpServerPort := 0)
  }

  /** What sdr_recv_post makes of an offer. */
  function Negotiate(local: Params, offer: Params, length: nat, generation: nat): Params {
    var udp := FirstSet(local.udpServerPort, local.channelBasePort, DEFAULT_PORT);
    Params(generation, FirstSet(offer.totalBytes, length, 0),
           Min(FirstSet(local.mtuBytes, offer.mtuBytes, MAX_PAYLOAD_SIZE), MAX_PAYLOAD_SIZE),
           FirstSet(local.packetsPerChunk, offer.packetsPerChunk, LOCAL_CHUNK_PACKETS),
           FirstSet(offer.numChannels, local.numChannels, 1),
           FirstSet(local.channelBasePort, udp, 0), udp)
  }

  /** The same as the receiver computes it, assignment by assignment. */
  method NegotiateParams(local: Params, offer: Params, length: nat, generation: nat) returns (params: Params)
    ensures params == Negotiate(local, offer, length, generation)
  {
    params := local;
    params := params.(totalBytes := if offer.totalBytes != 0 then offer.totalBytes else length);
    var proposedMtu := if params.mtuBytes != 0 then params.mtuBytes
                       else if offer.mtuBytes != 0 then offer.mtuBytes else MAX_PAYLOAD_SIZE;
    if proposedMtu == 0 {
      proposedMtu := MAX_PAYLOAD_SIZE;
    }
    params := params.(mtuBytes := Min(proposedMtu, MAX_PAYLOAD_SIZE));
    if params.packetsPerChunk == 0 {
      params := params.(packetsPerChunk := if offer.packetsPerChunk != 0 then offer.packetsPerChunk
                                             else LOCAL_CHUNK_PACKETS);
    }
    params := params.(numChannels := if offer.numChannels != 0 then offer.numChannels
                                     else if params.numChannels != 0 then params.numChannels else 1);
    if params.udpServerPort == 0 {
      params := params.(udpServerPort := if params.channelBasePort != 0 then params.channelBasePort
                                           else DEFAULT_PORT);
    }
    if params.channelBasePort == 0 {
      params := params.(channelBasePort := params.udpServerPort);
    }
    if params.transferId == 0 {
      params := params.(transferId := 1);
    }
    params := params.(transferId := generation);
  }

  /** Whose value wins, field by field. The receiver's own packets per chunk, MTU and ports
      come first, the offer's channels and length; what nobody named gets a default, and
      the MTU is cut to the largest payload. */
  lemma WhoseValueWins(local: Params, offer: Params, length: nat, generation: nat)
    ensures var p := Negotiate(local, offer, length, generation);
      && (local.packetsPerChunk != 0 ==> p.packetsPerChunk == local.packetsPerChunk)
      && (local.packetsPerChunk == 0 && offer.packetsPerChunk != 0 ==> p.packetsPerChunk == offer.packetsPerChunk)
      && (local.packetsPerChunk == 0 && offer.packetsPerChunk == 0 ==> p.packetsPerChunk == 64)
      && (0 < local.mtuBytes <= 65496 ==> p.mtuBytes == local.mtuBytes)
      && (local.mtuBytes > 65496 ==> p.mtuBytes == 65496)
      && (local.mtuBytes == 0 && 0 < offer.mtuBytes <= 65496 ==> p.mtuBytes == offer.mtuBytes)
      && (local.mtuBytes == 0 && (offer.mtuBytes == 0 || offer.mtuBytes > 65496) ==> p.mtuBytes == 65496)
      && (offer.numChannels != 0 ==> p.numChannels == offer.numChannels)
      && (offer.numChannels == 0 && local.numChannels != 0 ==> p.numChannels == local.numChannels)
      && (offer.numChannels == 0 && local.numChannels == 0 ==> p.numChannels == 1)
      && (local.udpServerPort != 0 ==> p.udpServerPort == local.udpServerPort)
      && (local.channelBasePort != 0 ==> p.channelBasePort == local.channelBasePort)
      && (local.udpServerPort == 0 && local.channelBasePort != 0 ==> p.udpServerPort == local.channelBasePort)
      && (local.channelBasePort == 0 && local.udpServerPort != 0 ==> p.channelBasePort == local.udpServerPort)
      && (local.udpServerPort == 0 && local.channelBasePort == 0 ==> p.udpServerPort == p.channelBasePort == 9999)
      && p.transferId == generation
      && p.totalBytes == if offer.totalBytes != 0 then offer.totalBytes else length
  {
  }

  /** A sender proposes what it was asked for, and otherwise the largest payload, 32 packets
      per chunk and one channel; the length is that of the buffer, and no port is named. */
  lemma ProposedFields(desired: Params, length: nat)
    ensures var p := Proposal(desired, length);
      && p.totalBytes == length && p.udpServerPort == 0
      && (if desired.mtuBytes != 0 then p.mtuBytes == desired.mtuBytes else p.mtuBytes == 65496)
      && (if desired.packetsPerChunk != 0 then p.packetsPerChunk == desired.packetsPerChunk
          else p.packetsPerChunk == 32)
      && (if desired.numChannels != 0 then p.numChannels == desired.numChannels else p.numChannels == 1)
  {
  }

  predicate Usable(p: Params) {
    && 1 <= p.mtuBytes <= MAX_PAYLOAD_SIZE
    && 1 <= p.packetsPerChunk < UINT16_VALUES && 1 <= p.numChannels < UINT16_VALUES
    && 1 <= p.channelBasePort < UINT16_VALUES && 1 <= p.udpServerPort < UINT16_VALUES
  }

  /** Whatever was configured and offered, the outcome can be used, so the sender's checks
      for a zero MTU and zero packets per chunk never fire. */
  lemma NegotiatedIsUsable(local: Params, offer: Params, length: nat, generation: nat)
    requires local.Fits() && offer.Fits()
    ensures Usable(Negotiate(local, offer, length, generation))
  {
  }

  /** A sender's own proposal leaves only the ports to the receiver's defaults: the
      receiver's number of channels never counts, and its 64 packets per chunk are used
      only when one of the two sides asked for 64. */
  lemma ProposalDecides(local: Params, desired: Params, length: nat, generation: nat, channels: nat)
    requires local.Fits() && desired.Fits() && length > 0
    ensures var offer := Proposal(desired, length);
      var p := Negotiate(local, offer, length, generation);
      && p == Negotiate(local.(numChannels := channels), offer, length, generation)
      && p.totalBytes == length
      && (p.packetsPerChunk == LOCAL_CHUNK_PACKETS ==>
            LOCAL_CHUNK_PACKETS in {local.packetsPerChunk, desired.packetsPerChunk})
      && (p.mtuBytes == local.mtuBytes <==> 0 < local.mtuBytes <= MAX_PAYLOAD_SIZE)
  {
  }

  // ---- ports ----

  /** The port of worker i, in 16 bits. */
  function ChannelPort(p: Params, i: nat): nat {
    (p.channelBasePort + i) % UINT16_VALUES
  }

  /** The ports the receiver's workers bind. */
  function BoundPorts(p: Params): set<nat> {
    set i: nat | i < p.numChannels :: ChannelPort(p, i)
  }

  /** Where the one-shot loop sends packet i. */
  function PacketPort(p: Params, i: nat): nat {
    var channels := if p.numChannels == 0 then 1 else p.numChannels;
    var base := if p.channelBasePort == 0 then p.udpServerPort else p.channelBasePort;
    (base + i % channels) % UINT16_VALUES
  }

  lemma PacketPortIsBound(p: Params, i: nat)
    requires Usable(p)
    ensures PacketPort(p, i) in BoundPorts(p)
  {
    assert PacketPort(p, i) == ChannelPort(p, i % p.numChannels);
  }

  lemma RoundAgain(i: nat, n: nat)
    requires n > 0
    ensures (i + n) % n == i % n
  {
    var q := i / n;
    MulSum(q, 1, n);
    MulSum(q + 1, 1, n);
    BlockOf(i, n, q);
    BlockOf(i + n, n, q + 1);
    assert i == q * n + i % n && i + n == (q + 1) * n + (i + n) % n;
  }

  lemma PortOfPacket(p: Params, i: nat)
    requires Usable(p)
    ensures PacketPort(p, i) == (p.channelBasePort + i % p.numChannels) % 65536
    ensures i < p.numChannels ==> PacketPort(p, i) == ChannelPort(p, i)
  {
    if i < p.numChannels {
      BlockOf(i, p.numChannels, 0);
    }
  }

  /** The packets go round the bound ports: packet i goes to worker i % num_channels, so as
      many packets as there are channels reach every one of them. */
  lemma PortsTakeTurns(p: Params, i: nat)
    requires Usable(p)
    ensures PacketPort(p, i + p.numChannels) == PacketPort(p, i) == (p.channelBasePort + i % p.numChannels) % 65536
    ensures forall port :: port in BoundPorts(p) ==> exists j: nat :: j < p.numChannels && PacketPort(p, j) == port
  {
    hide PacketPort;
    hide ChannelPort;
    RoundAgain(i, p.numChannels);
    PortOfPacket(p, i);
    PortOfPacket(p, i + p.numChannels);
    forall port | port in BoundPorts(p) ensures exists j: nat :: j < p.numChannels && PacketPort(p, j) == port {
      var j: nat :| j < p.numChannels && ChannelPort(p, j) == port;
      PortOfPacket(p, j);
    }
  }

  /** Selective Repeat sends every chunk to udp_server_port alone. That port is one of the
      bound ones exactly when it lies in the range of channels that starts at the base. */
  lemma RetransmitPortBound(p: Params)
    requires Usable(p)
    ensures p.udpServerPort in BoundPorts(p)
      <==> (p.udpServerPort + UINT16_VALUES - p.channelBasePort) % UINT16_VALUES < p.numChannels
  {
    var i := (p.udpServerPort + UINT16_VALUES - p.channelBasePort) % UINT16_VALUES;
    assert ChannelPort(p, i) == p.udpServerPort;
    forall j: nat | j < p.numChannels && ChannelPort(p, j) == p.udpServerPort ensures j == i {
    }
  }

  /** A receiver that configured at most one of the two ports is safe. */
  lemma OnePortConfigured(local: Params, offer: Params, length: nat, generation: nat)
    requires local.Fits() && offer.Fits() && (local.udpServerPort == 0 || local.channelBasePort == 0)
    ensures var p := Negotiate(local, offer, length, generation); p.udpServerPort in BoundPorts(p)
  {
    var p := Negotiate(local, offer, length, generation);
    assert p.udpServerPort == p.channelBasePort;
    assert ChannelPort(p, 0) == p.udpServerPort;
  }

  /** One that configured both may be deaf to every Selective Repeat packet. */
  lemma BothPortsConfigured() returns (local: Params, offer: Params)
    ensures local.Fits() && offer.Fits()
    ensures var p := Negotiate(local, offer, 1, 1); Usable(p) && p.udpServerPort !in BoundPorts(p)
  {
    local := Params(0, 0, 1024, 8, 1, 10000, 9999);
    offer := Proposal(Params(0, 0, 0, 0, 0, 0, 0), 1);
    RetransmitPortBound(Negotiate(local, offer, 1, 1));
  }

  // ---- the handshake as a protocol ----

  datatype Control = Offer(params: Params) | Cts(params: Params) | Accept(params: Params) | Other

  datatype SenderPhase = Idle | Offered | Sending | SendFailed

  /** The receiver prepares its slot, then its sockets, and only then clears the sender. */
  datatype ReceiverPhase = AwaitingOffer | Prepared | Listening | Cleared | Ready

  /** Where a data packet went, and what it was stamped with. */
  datatype Datagram = Datagram(port: nat, transferId: nat, msgId: nat, packetOffset: nat, packetsPerChunk: nat)

  /** Each side numbers its messages itself: the next number is in its context. */
  datatype State = State(
    desired: Params, local: Params, length: nat, generation: nat,
    sender: SenderPhase, adopted: Params, senderNextId: nat, sendId: nat,
    receiver: ReceiverPhase, posted: Params, ports: set<nat>, receiverNextId: nat, slotId: nat,
    toReceiver: seq<Control>, toSender: seq<Control>, packets: set<Datagram>)

  datatype Step =
    | Propose
    | HearOffer
    | Listen
    | Clear
    | HearCts
    | HearAccept
    | Transmit(i: nat)

  /** allocate_msg_id: the number, and the next one. */
  function AllocateId(next: nat): (nat, nat) {
    (next % MESSAGE_IDS, (next + 1) % MESSAGE_IDS)
  }

  /** The numbers go round all 1024 slots. */
  lemma IdsTakeTurns(next: nat)
    requires next < 1024
    ensures AllocateId(next) == (next, if next == 1023 then 0 else next + 1)
  {
  }

  function Next(s: State, step: Step): State {
    match step
    case Propose =>
      if s.sender != Idle then s else
        s.(sender := Offered, toReceiver := s.toReceiver + [Offer(Proposal(s.desired, s.length))])
    case HearOffer =>
      if s.receiver != AwaitingOffer || s.toReceiver == [] then s
      else if !s.toReceiver[0].Offer? then s.(toReceiver := s.toReceiver[1..])
      else s.(toReceiver := s.toReceiver[1..], receiver := Prepared,
              slotId := AllocateId(s.receiverNextId).0, receiverNextId := AllocateId(s.receiverNextId).1,
              posted := Negotiate(s.local, s.toReceiver[0].params, s.length, s.generation))
    case Listen =>
      if s.receiver != Prepared then s else s.(receiver := Listening, ports := BoundPorts(s.posted))
    case Clear =>
      if s.receiver != Listening then s else
        s.(receiver := Cleared, toSender := s.toSender + [Cts(s.posted)])
    case HearCts =>
      if s.sender != Offered || s.toSender == [] then s
      else if !s.toSender[0].Cts? then s.(toSender := s.toSender[1..])
      else
        var p := s.toSender[0].params;
        var heard := s.(toSender := s.toSender[1..], adopted := p, toReceiver := s.toReceiver + [Accept(p)]);
        if p.mtuBytes == 0 || p.packetsPerChunk == 0 then heard.(sender := SendFailed)
        else heard.(sender := Sending, sendId := AllocateId(s.senderNextId).0,
                    senderNextId := AllocateId(s.senderNextId).1)
    case HearAccept =>
      if s.receiver != Cleared || s.toReceiver == [] then s
      else if !s.toReceiver[0].Accept? then s.(toReceiver := s.toReceiver[1..])
      else s.(toReceiver := s.toReceiver[1..], receiver := Ready)
    case Transmit(i) =>
      if s.sender != Sending || i >= CeilDiv(s.length, Max(1, s.adopted.mtuBytes)) then s else
        s.(packets := s.packets + {Datagram(PacketPort(s.adopted, i), s.adopted.transferId, s.sendId, i,
                                            s.adopted.packetsPerChunk)})
  }

  /** Before the handshake the connection may hold leftovers, but none of the three messages. */
  predicate Init(s: State) {
    && s.desired.Fits() && s.local.Fits() && s.length > 0
    && s.generation < UINT32_VALUES && s.senderNextId < MESSAGE_IDS && s.receiverNextId < MESSAGE_IDS
    && s.sender == Idle && s.receiver == AwaitingOffer && s.ports == {} && s.packets == {}
    && (forall i :: 0 <= i < |s.toReceiver| ==> s.toReceiver[i].Other?)
    && (forall i :: 0 <= i < |s.toSender| ==> s.toSender[i].Other?)
  }

  /** A datagram is for a bound port, cut and stamped as the receiver's slot expects, with
      the sender's number for the message. */
  ghost predicate Expected(s: State, d: Datagram) {
    && d.port in s.ports
    && d.transferId == s.posted.transferId && d.msgId == s.sendId
    && d.packetsPerChunk == s.posted.packetsPerChunk
    && d.packetOffset < CeilDiv(s.length, Max(1, s.posted.mtuBytes))
  }

  ghost predicate ToReceiverTrue(s: State, c: Control) {
    match c
    case Offer(p) => p == Proposal(s.desired, s.length)
    case Accept(p) => p == s.posted && s.receiver in {Cleared, Ready}
    case Cts(_) => false
    case Other => true
  }

  ghost predicate ToSenderTrue(s: State, c: Control) {
    match c
    case Cts(p) => p == s.posted && s.receiver in {Cleared, Ready}
    case Other => true
    case _ => false
  }

  /** How the two numberings stand, begun at `ours` and `theirs`. */
  ghost predicate Numbered(s: State, ours: nat, theirs: nat) {
    && (if s.sender == Sending then s.sendId == ours % MESSAGE_IDS else s.senderNextId == ours)
    && (if s.receiver == AwaitingOffer then s.receiverNextId == theirs else s.slotId == theirs % MESSAGE_IDS)
  }

  lemma StepNumbers(s: State, step: Step, ours: nat, theirs: nat)
    requires Numbered(s, ours, theirs)
    ensures Numbered(Next(s, step), ours, theirs)
  {
  }

  ghost predicate Inv(s: State) {
    && s.desired.Fits() && s.local.Fits() && s.generation < UINT32_VALUES && s.length > 0
    && (s.receiver != AwaitingOffer ==>
          && s.sender != Idle
          && s.posted == Negotiate(s.local, Proposal(s.desired, s.length), s.length, s.generation))
    && (s.receiver in {Listening, Cleared, Ready} ==> s.ports == BoundPorts(s.posted))
    && (s.sender == Idle ==> forall i :: 0 <= i < |s.toReceiver| ==> s.toReceiver[i].Other?)
    && (forall i :: 0 <= i < |s.toReceiver| ==> ToReceiverTrue(s, s.toReceiver[i]))
    && (forall i :: 0 <= i < |s.toSender| ==> ToSenderTrue(s, s.toSender[i]))
    && s.sender != SendFailed
    && (s.sender == Sending ==> s.adopted == s.posted && s.receiver in {Cleared, Ready})
    && (s.packets != {} ==> s.sender == Sending)
    && (forall d :: d in s.packets ==> Expected(s, d))
  }

  lemma TransmitKeeps(s: State, i: nat)
    requires Inv(s)
    ensures Inv(Next(s, Transmit(i)))
  {
    if s.sender == Sending {
      NegotiatedIsUsable(s.local, Proposal(s.desired, s.length), s.length, s.generation);
      PacketPortIsBound(s.adopted, i);
    }
  }

  lemma HearCtsKeeps(s: State)
    requires Inv(s)
    ensures Inv(Next(s, HearCts))
  {
    if s.sender == Offered && s.toSender != [] {
      NegotiatedIsUsable(s.local, Proposal(s.desired, s.length), s.length, s.generation);
      assert ToSenderTrue(s, s.toSender[0]);
    }
  }

  lemma HearOfferKeeps(s: State)
    requires Inv(s)
    ensures Inv(Next(s, HearOffer))
  {
    if s.receiver == AwaitingOffer && s.toReceiver != [] {
      assert ToReceiverTrue(s, s.toReceiver[0]);
    }
  }

  lemma HearAcceptKeeps(s: State)
    requires Inv(s)
    ensures Inv(Next(s, HearAccept))
  {
  }

  lemma ProposeKeeps(s: State)
    requires Inv(s)
    ensures Inv(Next(s, Propose))
  {
  }

  lemma StepKeeps(s: State, step: Step)
    requires Inv(s)
    ensures Inv(Next(s, step))
  {
    match step
    case Propose => ProposeKeeps(s);
    case HearOffer => HearOfferKeeps(s);
    case Listen =>
    case Clear =>
    case HearCts => HearCtsKeeps(s);
    case HearAccept => HearAcceptKeeps(s);
    case Transmit(i) => TransmitKeeps(s, i);
  }

  ghost predicate StepTaken(s: State, step: Step, t: State) {
    t == Next(s, step)
  }

  ghost predicate Run(states: seq<State>, steps: seq<Step>) {
    && |states| == |steps| + 1 && Init(states[0])
    && forall i :: 0 <= i < |steps| ==> StepTaken(states[i], steps[i], states[i + 1])
  }

  lemma {:induction false} RunKeeps(states: seq<State>, steps: seq<Step>, i: nat)
    requires Run(states, steps) && i < |states|
    ensures Inv(states[i])
  {
    if i > 0 {
      RunKeeps(states, steps, i - 1);
      assert StepTaken(states[i - 1], steps[i - 1], states[i]);
      StepKeeps(states[i - 1], steps[i - 1]);
    }
  }

  lemma {:induction false} RunNumbers(states: seq<State>, steps: seq<Step>, i: nat)
    requires Run(states, steps) && i < |states|
    ensures Numbered(states[i], states[0].senderNextId, states[0].receiverNextId)
  {
    hide Numbered;
    hide Next;
    if i > 0 {
      RunNumbers(states, steps, i - 1);
      assert StepTaken(states[i - 1], steps[i - 1], states[i]);
      StepNumbers(states[i - 1], steps[i - 1], states[0].senderNextId, states[0].receiverNextId);
    } else {
      StartNumbers(states[0]);
    }
  }

  lemma StartNumbers(s: State)
    requires Init(s)
    ensures Numbered(s, s.senderNextId, s.receiverNextId)
  {
  }

  /** No data packet precedes the CTS. When one is sent, the receiver's slot is prepared and
      its sockets are bound, both sides hold the same usable parameters, and the packet goes
      to a bound port with the transfer stamp and the chunk size the slot expects. It names
      the receiver's slot exactly when the two contexts had numbered equally many messages. */
  lemma DataFindsTheReceiver(states: seq<State>, steps: seq<Step>, i: nat, d: Datagram)
    requires Run(states, steps) && i < |states| && d in states[i].packets
    ensures var s := states[i];
      && s.receiver in {Cleared, Ready}
      && s.sender == Sending && s.adopted == s.posted && Usable(s.posted)
      && d.port in s.ports && s.ports == BoundPorts(s.posted)
      && d.transferId == s.posted.transferId == s.generation
      && (d.msgId == s.slotId <==> states[0].senderNextId == states[0].receiverNextId)
      && d.packetsPerChunk == s.posted.packetsPerChunk
      && d.packetOffset < CeilDiv(s.posted.totalBytes, s.posted.mtuBytes)
  {
    RunKeeps(states, steps, i);
    RunNumbers(states, steps, i);
    var s := states[i];
    NegotiatedIsUsable(s.local, Proposal(s.desired, s.length), s.length, s.generation);
    assert Expected(s, d);
  }

  /** The two configurations do not change. */
  lemma {:induction false} ConfiguredOnce(states: seq<State>, steps: seq<Step>, i: nat)
    requires Run(states, steps) && i < |states|
    ensures var s, t := states[0], states[i];
      t.local == s.local && t.desired == s.desired && t.length == s.length && t.generation == s.generation
  {
    if i > 0 {
      ConfiguredOnce(states, steps, i - 1);
      assert StepTaken(states[i - 1], steps[i - 1], states[i]);
    }
  }

  /** What both sides work with in every run, from what each was configured with: the
      receiver's packets per chunk, MTU and ports where it has them, the sender's channels. */
  lemma BothSidesUse(states: seq<State>, steps: seq<Step>, i: nat)
    requires Run(states, steps) && i < |states| && states[i].receiver != AwaitingOffer
    ensures var p, local, desired := states[i].posted, states[0].local, states[0].desired;
      && (states[i].sender == Sending ==> states[i].adopted == p)
      && p.packetsPerChunk == (if local.packetsPerChunk > 0 then local.packetsPerChunk
                               else if desired.packetsPerChunk > 0 then desired.packetsPerChunk else 32)
      && p.mtuBytes == (if 0 < local.mtuBytes <= 65496 then local.mtuBytes
                        else if local.mtuBytes == 0 && 0 < desired.mtuBytes <= 65496 then desired.mtuBytes
                        else 65496)
      && p.numChannels == (if desired.numChannels > 0 then desired.numChannels else 1)
      && p.udpServerPort == (if local.udpServerPort > 0 then local.udpServerPort
                             else if local.channelBasePort > 0 then local.channelBasePort else 9999)
      && p.channelBasePort == (if local.channelBasePort > 0 then local.channelBasePort else p.udpServerPort)
      && p.totalBytes == states[0].length && p.transferId == states[0].generation
  {
    RunKeeps(states, steps, i);
    ConfiguredOnce(states, steps, i);
    var s := states[i];
    WhoseValueWins(s.local, Proposal(s.desired, s.length), s.length, s.generation);
    ProposedFields(s.desired, s.length);
  }
}
