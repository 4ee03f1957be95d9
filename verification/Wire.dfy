/** Packets on the wire: the header, the loops that cut a message into packets, and
    the proof that every way of sending it emits the same packets. */
module Wire {
  import opened Geometry

  type byte = bv8

  const MAGIC_VALUE: nat := 0x5344
  const MESSAGE_IDS: nat := 1024
  const UINT32_VALUES: nat := 0x1_0000_0000

  datatype Option<+T> = None | Some(value: T)

  /** SDRPacketHeader, host representation. */
  datatype Header = Header(
    magic: nat, kind: nat, transferId: nat, msgId: nat, packetOffset: nat, submsgId: nat, chunkSeq: nat,
    packetsPerChunk: nat, fecK: nat, fecM: nat, parityIdx: nat, payloadLen: nat, flags: nat)
  {
    /** Every field fits the bits the struct gives it. */
    predicate Fits() {
      && magic < UINT16_VALUES && kind < 256 && flags < 256
      && transferId < UINT32_VALUES && chunkSeq < UINT32_VALUES
      && msgId < MESSAGE_IDS && packetOffset < PACKET_OFFSETS
      && submsgId < UINT16_VALUES && packetsPerChunk < UINT16_VALUES
      && fecK < UINT16_VALUES && fecM < UINT16_VALUES
      && parityIdx < UINT16_VALUES && payloadLen < UINT16_VALUES
    }

    function GetChunkId(): nat {
      if packetsPerChunk == 0 then 0 else packetOffset / packetsPerChunk
    }

    predicate IsValid() {
      magic == MAGIC_VALUE
    }

    /** Byte order is changed for whole-byte fields only; the bit fields stay as they are. */
    function SwapOrder(): Header
      requires Fits()
    {
      this.(magic := Swap16(magic), transferId := Swap32(transferId), chunkSeq := Swap32(chunkSeq),
            submsgId := Swap16(submsgId), packetsPerChunk := Swap16(packetsPerChunk), fecK := Swap16(fecK),
            fecM := Swap16(fecM), parityIdx := Swap16(parityIdx), payloadLen := Swap16(payloadLen))
    }

    /** to_host_order undoes to_network_order. */
    lemma OrderRoundTrip()
      requires Fits()
      ensures SwapOrder().Fits() && SwapOrder().SwapOrder() == this
    {
      Swap32Twice(transferId);
      Swap32Twice(chunkSeq);
      Swap16Twice(magic);
      Swap16Twice(submsgId);
      Swap16Twice(packetsPerChunk);
      Swap16Twice(fecK);
      Swap16Twice(fecM);
      Swap16Twice(parityIdx);
      Swap16Twice(payloadLen);
    }

    /** It reverses the bytes of every 16- and 32-bit field and touches no other. */
    lemma OrderReversesBytes()
      requires Fits()
      ensures var n := SwapOrder();
        && Reversed16(magic, n.magic) && Reversed16(submsgId, n.submsgId)
        && Reversed16(packetsPerChunk, n.packetsPerChunk) && Reversed16(fecK, n.fecK) && Reversed16(fecM, n.fecM)
        && Reversed16(parityIdx, n.parityIdx) && Reversed16(payloadLen, n.payloadLen)
        && Reversed32(transferId, n.transferId) && Reversed32(chunkSeq, n.chunkSeq)
        && n.kind == kind && n.msgId == msgId && n.packetOffset == packetOffset && n.flags == flags
    {
      hide Reversed16;
      hide Reversed32;
      Swap16Reverses(magic);
      Swap16Reverses(submsgId);
      Swap16Reverses(packetsPerChunk);
      Swap16Reverses(fecK);
      Swap16Reverses(fecM);
      Swap16Reverses(parityIdx);
      Swap16Reverses(payloadLen);
      Swap32Reverses(transferId);
      Swap32Reverses(chunkSeq);
    }
  }

  /** Byte i of a number in memory, the lowest first. */
  function ByteAt(x: nat, i: nat): nat {
    if i == 0 then x % 256 else ByteAt(x / 256, i - 1)
  }

  predicate Reversed16(x: nat, y: nat) {
    y < 65536 && ByteAt(y, 0) == ByteAt(x, 1) && ByteAt(y, 1) == ByteAt(x, 0)
  }

  predicate Reversed32(x: nat, y: nat) {
    && y < 0x1_0000_0000
    && ByteAt(y, 0) == ByteAt(x, 3) && ByteAt(y, 1) == ByteAt(x, 2)
    && ByteAt(y, 2) == ByteAt(x, 1) && ByteAt(y, 3) == ByteAt(x, 0)
  }

  lemma Swap16Reverses(x: nat)
    requires x < UINT16_VALUES
    ensures Reversed16(x, Swap16(x))
  {
    assert ByteAt(x, 0) == x % 256 && ByteAt(x, 1) == x / 256;
    var y := Swap16(x);
    assert ByteAt(y, 0) == y % 256 && ByteAt(y, 1) == y / 256 % 256;
  }

  lemma HalfBytes(hi: nat, lo: nat)
    requires hi < UINT16_VALUES && lo < UINT16_VALUES
    ensures var x := hi * 65536 + lo;
      && ByteAt(x, 0) == lo % 256 && ByteAt(x, 1) == lo / 256
      && ByteAt(x, 2) == hi % 256 && ByteAt(x, 3) == hi / 256
  {
    var x := hi * 65536 + lo;
    assert x / 256 == hi * 256 + lo / 256 && x / 256 / 256 == hi && x / 256 / 256 / 256 == hi / 256;
    assert ByteAt(x, 2) == ByteAt(x / 256, 1) == ByteAt(hi, 0);
    assert ByteAt(x, 3) == ByteAt(x / 256, 2) == ByteAt(hi, 1) == ByteAt(hi / 256, 0);
  }

  lemma Swap32Reverses(x: nat)
    requires x < UINT32_VALUES
    ensures Reversed32(x, Swap32(x))
  {
    var hi, lo := x / 65536, x % 65536;
    Swap16Twice(hi);
    Swap16Twice(lo);
    HalfBytes(hi, lo);
    HalfBytes(Swap16(lo), Swap16(hi));
  }

  /** htons and ntohs on a little-endian host. */
  function Swap16(x: nat): nat
    requires x < UINT16_VALUES
  {
    x % 256 * 256 + x / 256
  }

  /** htonl and ntohl on a little-endian host. */
  function Swap32(x: nat): nat
    requires x < UINT32_VALUES
  {
    Swap16(x % 65536) * 65536 + Swap16(x / 65536)
  }

  lemma Swap16Twice(x: nat)
    requires x < UINT16_VALUES
    ensures Swap16(x) < UINT16_VALUES && Swap16(Swap16(x)) == x
  {
  }

  lemma Halves(hi: nat, lo: nat)
    requires hi < UINT16_VALUES && lo < UINT16_VALUES
    ensures hi * 65536 + lo < UINT32_VALUES
    ensures (hi * 65536 + lo) % 65536 == lo && (hi * 65536 + lo) / 65536 == hi
  {
  }

  lemma Swap32Twice(x: nat)
    requires x < UINT32_VALUES
    ensures Swap32(x) < UINT32_VALUES && Swap32(Swap32(x)) == x
  {
    var hi, lo := x / 65536, x % 65536;
    Swap16Twice(hi);
    Swap16Twice(lo);
    Halves(Swap16(lo), Swap16(hi));
  }

  datatype Packet = Packet(header: Header, payload: seq<byte>)

  /** create_data_packet: arguments are cut to the width of their fields. */
  function CreateDataPacket(
    transferId: nat, msgId: nat, packetOffset: nat, packetsPerChunk: nat, data: seq<byte>
  ): Option<Packet>
  {
    if |data| > MAX_PAYLOAD_SIZE then None else
      Some(Packet(
        Header(MAGIC_VALUE, 0, transferId % UINT32_VALUES, msgId % MESSAGE_IDS, packetOffset % PACKET_OFFSETS,
               0, 0, packetsPerChunk % UINT16_VALUES, 0, 0, 0, |data| % UINT16_VALUES, 0),
        data))
  }

  /** A payload is never cut short by its length field. An argument arrives as it was given
      exactly when it fits its field: 18 bits for the offset, 10 for the message id. */
  lemma PacketFields(transferId: nat, msgId: nat, offset: nat, ppc: nat, data: seq<byte>)
    requires |data| <= MAX_PAYLOAD_SIZE
    ensures var p := CreateDataPacket(transferId, msgId, offset, ppc, data).value;
      && p.header.Fits() && p.header.IsValid()
      && p.header.payloadLen == |p.payload|
      && (p.header.packetOffset == offset <==> offset < 262144)
      && (p.header.msgId == msgId <==> msgId < 1024)
      && (p.header.transferId == transferId <==> transferId < 0x1_0000_0000)
      && (p.header.packetsPerChunk == ppc <==> ppc < 65536)
      && p.payload == data && p.header.magic == 0x5344 && p.header.kind == 0
      && p.header.chunkSeq == 0 && p.header.flags == 0
  {
    assert |data| < UINT16_VALUES;
  }

  /** A message being sent: its bytes, how they are cut, and what its packets are stamped with. */
  datatype Outgoing = Outgoing(layout: Layout, data: seq<byte>, transferId: nat, msgId: nat) {
    predicate Valid() {
      && layout.Valid()
      && |data| == layout.length
      && transferId < UINT32_VALUES
      && msgId < MESSAGE_IDS
    }

    function Slice(p: nat): seq<byte>
      requires Valid() && p < layout.Packets()
    {
      layout.PacketSlice(p);
      data[layout.PacketLo(p)..layout.PacketHi(p)]
    }

    /** Packet p as it must look on the wire: its own offset and chunk, and the
        bytes p * mtu up to (p + 1) * mtu or the end of the message. */
    function DataPacket(p: nat): Packet
      requires Valid() && p < layout.Packets()
    {
      Packet(Header(MAGIC_VALUE, 0, transferId, msgId, p, 0, ChunkOf(layout.ppc, p), layout.ppc,
                    0, 0, 0, |Slice(p)|, 0),
             Slice(p))
    }

    function Run(lo: nat, hi: nat): seq<Packet>
      requires Valid() && lo <= hi <= layout.Packets()
    {
      seq(hi - lo, i requires 0 <= i < hi - lo => DataPacket(lo + i))
    }

    function Chunk(c: nat): seq<Packet>
      requires Valid() && c < layout.Chunks()
    {
      layout.ChunkRange(c);
      Run(ChunkLo(layout.ppc, c), ChunkHi(layout.Packets(), layout.ppc, c))
    }

    function ChunksUpTo(c: nat): seq<Packet>
      requires Valid() && c <= layout.Chunks()
    {
      if c == 0 then [] else ChunksUpTo(c - 1) + Chunk(c - 1)
    }

    lemma SliceFits(p: nat)
      requires Valid() && p < layout.Packets()
      ensures 0 < |Slice(p)| <= layout.mtu <= MAX_PAYLOAD_SIZE
    {
      layout.PacketSlice(p);
    }

    lemma {:induction false} ChunksPrefix(c: nat)
      requires Valid() && c <= layout.Chunks()
      ensures ChunksUpTo(c) == Run(0, Min(c * layout.ppc, layout.Packets()))
    {
      if c > 0 {
        ChunksPrefix(c - 1);
        layout.ChunkRange(c - 1);
        assert (c - 1) * layout.ppc + layout.ppc == c * layout.ppc;
      }
    }

    /** What packet p carries: the bytes from p * mtu on, a full MTU of them or all that
        are left, and where they belong. */
    lemma PacketCarries(p: nat)
      requires Valid() && p < layout.Packets()
      ensures var packet := DataPacket(p); var h, at := packet.header, p * layout.mtu;
        && h.Fits() && h.IsValid() && h.packetOffset == p && h.GetChunkId() == h.chunkSeq == p / layout.ppc
        && h.transferId == transferId && h.msgId == msgId && h.packetsPerChunk == layout.ppc
        && h.payloadLen == |packet.payload| && at + |packet.payload| == Min(at + layout.mtu, |data|)
        && Carries(data, at, packet.payload)
    {
      PacketHeader(p);
      PacketBytes(p);
    }

    lemma PacketHeader(p: nat)
      requires Valid() && p < layout.Packets()
      ensures var packet := DataPacket(p); var h := packet.header;
        && h.Fits() && h.IsValid() && h.packetOffset == p && h.GetChunkId() == h.chunkSeq == p / layout.ppc
        && h.transferId == transferId && h.msgId == msgId && h.packetsPerChunk == layout.ppc
        && h.payloadLen == |packet.payload|
    {
      hide Slice;
      SliceFits(p);
      BlockInRange(p, layout.ppc, layout.Packets());
    }

    lemma PacketBytes(p: nat)
      requires Valid() && p < layout.Packets()
      ensures var payload, at := DataPacket(p).payload, p * layout.mtu;
        at + |payload| == Min(at + layout.mtu, |data|) && Carries(data, at, payload)
    {
      layout.PacketSlice(p);
      SubsequenceCarried(data, layout.PacketLo(p), layout.PacketHi(p));
    }

    lemma RunHolds(lo: nat, hi: nat, p: nat)
      requires Valid() && lo <= hi <= layout.Packets() && p < layout.Packets()
      ensures DataPacket(p) in Run(lo, hi) <==> lo <= p < hi
    {
      hide Slice;
      if lo <= p < hi {
        assert Run(lo, hi)[p - lo] == DataPacket(p);
      } else {
        forall i | 0 <= i < hi - lo ensures Run(lo, hi)[i] != DataPacket(p) {
          assert Run(lo, hi)[i] == DataPacket(lo + i);
          assert DataPacket(lo + i).header.packetOffset != DataPacket(p).header.packetOffset;
        }
      }
    }

    /** A chunk is sent as exactly the packets whose number divided by ppc is the chunk's. */
    lemma ChunkHolds(c: nat, p: nat)
      requires Valid() && c < layout.Chunks() && p < layout.Packets()
      ensures DataPacket(p) in Chunk(c) <==> p / layout.ppc == c
    {
      hide Slice;
      hide Run;
      layout.ChunkRange(c);
      ChunkMembers(layout.Packets(), layout.ppc, c, p);
      RunHolds(ChunkLo(layout.ppc, c), ChunkHi(layout.Packets(), layout.ppc, c), p);
    }

    /** All chunks in turn are exactly the packets of the one-shot loop, once each. */
    lemma ChunksMakeMessage()
      requires Valid()
      ensures ChunksUpTo(layout.Chunks()) == Run(0, layout.Packets())
    {
      ChunksPrefix(layout.Chunks());
      CeilBounds(layout.Packets(), layout.ppc);
    }

    /** The payloads in turn are the message. */
    lemma {:induction false} PayloadsMakeMessage(n: nat)
      requires Valid() && n <= layout.Packets()
      ensures Payloads(Run(0, n)) == data[..Min(n * layout.mtu, layout.length)]
    {
      if n > 0 {
        PayloadsMakeMessage(n - 1);
        OnePayload(n);
        layout.PacketSlice(n - 1);
        MulSum(n - 1, 1, layout.mtu);
        var lo, hi := layout.PacketLo(n - 1), layout.PacketHi(n - 1);
        assert data[..lo] + data[lo..hi] == data[..hi];
      }
    }

    lemma OnePayload(n: nat)
      requires Valid() && 0 < n <= layout.Packets()
      ensures Payloads(Run(0, n)) == Payloads(Run(0, n - 1)) + Slice(n - 1)
    {
      assert Run(0, n)[..n - 1] == Run(0, n - 1);
      assert Run(0, n)[n - 1] == DataPacket(n - 1);
    }

    /** Sending the whole message, by chunks or in one go, sends each byte once and in order. */
    lemma WholeMessage()
      requires Valid()
      ensures Payloads(ChunksUpTo(layout.Chunks())) == data
    {
      ChunksMakeMessage();
      PayloadsMakeMessage(layout.Packets());
      CeilBounds(layout.length, layout.mtu);
    }
  }

  /** The payload is the bytes of the message from `at` on. */
  predicate Carries(data: seq<byte>, at: nat, payload: seq<byte>) {
    at + |payload| <= |data| && forall b :: 0 <= b < |payload| ==> payload[b] == data[at + b]
  }

  lemma SubsequenceCarried(data: seq<byte>, lo: nat, hi: nat)
    requires lo <= hi <= |data|
    ensures Carries(data, lo, data[lo..hi])
  {
  }

  function Payloads(packets: seq<Packet>): seq<byte> {
    if packets == [] then [] else Payloads(packets[..|packets| - 1]) + packets[|packets| - 1].payload
  }

  /** What one iteration of a sending loop puts on the wire, for an offset inside the message. */
  method BuildPacket(m: Outgoing, packetOffset: nat) returns (packet: Packet)
    requires m.Valid() && packetOffset < m.layout.Packets()
    ensures packet == m.DataPacket(packetOffset)
  {
    m.SliceFits(packetOffset);
    m.layout.PacketSlice(packetOffset);
    var dataOffset := packetOffset * m.layout.mtu;
    var dataLen := Min(m.layout.mtu, |m.data| - dataOffset);
    if dataLen > MAX_PAYLOAD_SIZE {
      dataLen := MAX_PAYLOAD_SIZE;
    }
    PacketFields(m.transferId, m.msgId, packetOffset, m.layout.ppc, m.data[dataOffset..dataOffset + dataLen]);
    var created := CreateDataPacket(m.transferId, m.msgId, packetOffset, m.layout.ppc,
                                    m.data[dataOffset..dataOffset + dataLen]);
    packet := created.value.(header := created.value.header.(chunkSeq := created.value.header.GetChunkId()));
  }

  /** send_packets_range: stops at the first packet that starts past the message. */
  method SendPacketsRange(m: Outgoing, startPacket: nat, packetCount: nat) returns (sent: seq<Packet>)
    requires m.Valid()
    ensures startPacket > m.layout.Packets() ==> sent == []
    ensures startPacket <= m.layout.Packets() ==>
      sent == m.Run(startPacket, Min(startPacket + packetCount, m.layout.Packets()))
  {
    sent := [];
    var i := 0;
    while i < packetCount
      invariant 0 <= i <= packetCount
      invariant startPacket > m.layout.Packets() ==> i == 0 && sent == []
      invariant startPacket <= m.layout.Packets() ==>
        startPacket + i <= m.layout.Packets() && sent == m.Run(startPacket, startPacket + i)
    {
      var packetOffset := startPacket + i;
      if packetOffset * m.layout.mtu >= |m.data| {
        PastTheEnd(m.layout, packetOffset);
        break;
      }
      InsideTheMessage(m.layout, packetOffset);
      var packet := BuildPacket(m, packetOffset);
      sent := sent + [packet];
      i := i + 1;
    }
  }

  lemma PastTheEnd(layout: Layout, p: nat)
    requires layout.Valid() && p * layout.mtu >= layout.length
    ensures p >= layout.Packets()
  {
    if p < layout.Packets() {
      BlockStartInRange(p, layout.mtu, layout.length);
    }
  }

  lemma InsideTheMessage(layout: Layout, p: nat)
    requires layout.Valid() && p * layout.mtu < layout.length
    ensures p < layout.Packets()
  {
    if p >= layout.Packets() {
      BlockStartOutOfRange(p, layout.mtu, layout.length);
    }
  }

  /** retransmit_range: byte offsets first, packet numbers from them. Only the packets
      of the chunks asked for are sent, and all of them. */
  method RetransmitRange(m: Outgoing, startChunk: nat, count: nat) returns (sent: seq<Packet>)
    requires m.Valid()
    ensures startChunk >= m.layout.Chunks() ==> sent == []
    ensures startChunk < m.layout.Chunks() ==>
      && startChunk * m.layout.ppc <= Min((startChunk + count) * m.layout.ppc, m.layout.Packets())
      && sent == m.Run(startChunk * m.layout.ppc, Min((startChunk + count) * m.layout.ppc, m.layout.Packets()))
    ensures startChunk < m.layout.Chunks() && count == 1 ==> sent == m.Chunk(startChunk)
  {
    var L := m.layout;
    var chunkBytes := L.ppc * L.mtu;
    var offset := startChunk * chunkBytes;
    var length := count * chunkBytes;
    ChunkOffset(L, startChunk);
    if offset >= |m.data| {
      return [];
    }
    if offset + length > |m.data| {
      length := |m.data| - offset;
    }
    var startPacket := offset / L.mtu;
    var packetCount := (length + L.mtu - 1) / L.mtu;
    L.ChunkRange(startChunk);
    ChunkPackets(L, startChunk, count, offset, count * chunkBytes, length);
    sent := SendPacketsRange(m, startPacket, packetCount);
    MulSum(startChunk, 1, L.ppc);
  }

  /** retransmit_range(c, 1), the only way the sender calls it. */
  method RetransmitOne(m: Outgoing, c: nat) returns (sent: seq<Packet>)
    requires m.Valid() && c < m.layout.Chunks()
    ensures sent == m.Chunk(c)
  {
    sent := RetransmitRange(m, c, 1);
  }

  lemma ChunkOffset(L: Layout, c: nat)
    requires L.Valid()
    ensures c * (L.ppc * L.mtu) == c * L.ppc * L.mtu
    ensures c * (L.ppc * L.mtu) / L.mtu == c * L.ppc
    ensures c * (L.ppc * L.mtu) >= L.length <==> c >= L.Chunks()
  {
    var p := c * L.ppc;
    MulAssociates(c, L.ppc, L.mtu);
    MulDivides(p, L.mtu);
    if c >= L.Chunks() {
      BlockStartOutOfRange(c, L.ppc, L.Packets());
      BlockStartOutOfRange(p, L.mtu, L.length);
    } else {
      BlockStartInRange(c, L.ppc, L.Packets());
      BlockStartInRange(p, L.mtu, L.length);
    }
  }

  /** The packet count computed from bytes ends where the chunks or the message end. */
  lemma ChunkPackets(L: Layout, c: nat, count: nat, offset: nat, full: nat, length: nat)
    requires L.Valid() && offset == c * (L.ppc * L.mtu) && full == count * (L.ppc * L.mtu)
    requires offset < L.length && length == Min(full, L.length - offset)
    ensures c * L.ppc + CeilDiv(length, L.mtu) == Min((c + count) * L.ppc, L.Packets())
  {
    var base, span := c * L.ppc, count * L.ppc;
    MulAssociates(c, L.ppc, L.mtu);
    MulAssociates(count, L.ppc, L.mtu);
    MulSum(c, count, L.ppc);
    BytesToPackets(L, base, span, length);
  }

  lemma BytesToPackets(L: Layout, base: nat, span: nat, length: nat)
    requires L.Valid() && base * L.mtu < L.length
    requires length == Min(span * L.mtu, L.length - base * L.mtu)
    ensures base + CeilDiv(length, L.mtu) == Min(base + span, L.Packets())
  {
    CeilBounds(L.length, L.mtu);
    CeilBounds(length, L.mtu);
    var count := CeilDiv(length, L.mtu);
    MulSum(base, span, L.mtu);
    MulSum(base, count, L.mtu);
    if length == span * L.mtu {
      CeilUnique(length, L.mtu, span);
      if L.Packets() < base + span {
        MulStep(L.Packets(), base + span, L.mtu);
      }
    } else {
      CeilUnique(L.length, L.mtu, base + count);
      if base + span < L.Packets() {
        MulStep(base + span, L.Packets(), L.mtu);
      }
    }
  }

  /** The one-shot loop of sdr_send_post, with the port each packet goes to. */
  method SendAll(m: Outgoing, basePort: nat, numChannels: nat) returns (sent: seq<Packet>, ports: seq<nat>)
    requires m.Valid() && numChannels > 0
    ensures sent == m.Run(0, m.layout.Packets())
    ensures |ports| == |sent|
    ensures forall i :: 0 <= i < |ports| ==> ports[i] == (basePort + i % numChannels) % UINT16_VALUES
  {
    var totalPackets := (|m.data| + m.layout.mtu - 1) / m.layout.mtu;
    sent, ports := [], [];
    var i := 0;
    while i < totalPackets
      invariant 0 <= i <= totalPackets
      invariant sent == m.Run(0, i)
      invariant |ports| == i
      invariant forall j :: 0 <= j < i ==> ports[j] == (basePort + j % numChannels) % UINT16_VALUES
    {
      var packet := BuildPacket(m, i);
      sent := sent + [packet];
      ports := ports + [(basePort + i % numChannels) % UINT16_VALUES];
      i := i + 1;
    }
  }
}
