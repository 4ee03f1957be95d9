/** What a worker does with one packet of a posted message: check for a duplicate,
    write the payload, then publish the packet's bit. */
module Receiver {
  import opened WordBits
  import opened Geometry
  import opened Backend
  import opened Wire

  /** write_packet_to_buffer: nothing past the end of the buffer is ever written. */
  function Written(buffer: seq<byte>, mtu: nat, offset: nat, payload: seq<byte>): (r: seq<byte>)
    ensures |r| == |buffer|
  {
    var at := offset * if mtu == 0 then 1 else mtu;
    if at >= |buffer| then buffer else
      var n := Min(|payload|, |buffer| - at);
      buffer[..at] + payload[..n] + buffer[at + n..]
  }

  /** The buffer holds the sender's bytes of packet p. */
  predicate HasBytes(m: Outgoing, buffer: seq<byte>, p: nat)
    requires m.Valid() && p < m.layout.Packets()
  {
    m.layout.PacketSlice(p);
    |buffer| == m.layout.length && buffer[m.layout.PacketLo(p)..m.layout.PacketHi(p)] == m.Slice(p)
  }

  /** A set bit means that the bytes are there. */
  ghost predicate Published(m: Outgoing, buffer: seq<byte>, words: seq<Word>) {
    && m.Valid() && |buffer| == m.layout.length && |words| == WordsFor(m.layout.Packets())
    && forall p: nat :: p < m.layout.Packets() && Has(words, p) ==> HasBytes(m, buffer, p)
  }

  /** With every packet bit set, the buffer is the message. */
  lemma AllPublished(m: Outgoing, buffer: seq<byte>, words: seq<Word>)
    requires Published(m, buffer, words) && AllSet(words, 0, m.layout.Packets())
    ensures buffer == m.data
  {
    forall p: nat | p < m.layout.Packets() ensures HasBytes(m, buffer, p) {
    }
    AllBytes(m, buffer);
  }

  lemma AllBytes(m: Outgoing, buffer: seq<byte>)
    requires m.Valid() && |buffer| == m.layout.length
    requires forall p: nat :: p < m.layout.Packets() ==> HasBytes(m, buffer, p)
    ensures buffer == m.data
  {
    forall b | 0 <= b < |buffer| ensures buffer[b] == m.data[b] {
      var p := b / m.layout.mtu;
      m.layout.PacketOfByte(b);
      assert HasBytes(m, buffer, p);
      var lo, hi := m.layout.PacketLo(p), m.layout.PacketHi(p);
      assert buffer[b] == buffer[lo..hi][b - lo] == m.Slice(p)[b - lo];
    }
  }

  /** Writing packet p's own slice puts its bytes in place and disturbs no other packet's. */
  lemma WriteKeepsBytes(m: Outgoing, buffer: seq<byte>, p: nat, q: nat)
    requires m.Valid() && |buffer| == m.layout.length
    requires p < m.layout.Packets() && q < m.layout.Packets()
    ensures var after := Written(buffer, m.layout.mtu, p, m.Slice(p));
      && HasBytes(m, after, p)
      && (HasBytes(m, buffer, q) ==> HasBytes(m, after, q))
  {
    m.layout.PacketSlice(p);
    m.layout.PacketSlice(q);
    if p < q {
      MulStep(p, q, m.layout.mtu);
    } else if q < p {
      MulStep(q, p, m.layout.mtu);
    }
  }

  /** A packet whose offset is past the last one starts past the end of the buffer. */
  lemma PastTheEndWritesNothing(m: Outgoing, buffer: seq<byte>, offset: nat, payload: seq<byte>)
    requires m.Valid() && |buffer| == m.layout.length && offset >= m.layout.Packets()
    ensures Written(buffer, m.layout.mtu, offset, payload) == buffer
  {
    BlockStartOutOfRange(offset, m.layout.mtu, m.layout.length);
  }

  method WritePacketToBuffer(buffer: array<byte>, mtuBytes: nat, packetOffset: nat, payload: seq<byte>)
    modifies buffer
    ensures buffer[..] == Written(old(buffer[..]), mtuBytes, packetOffset, payload)
  {
    var mtu := if mtuBytes == 0 then 1 else mtuBytes;
    var bufferOffset := packetOffset * mtu;
    if bufferOffset >= buffer.Length {
      return;
    }
    var payloadLen := |payload|;
    if bufferOffset + payloadLen > buffer.Length {
      payloadLen := buffer.Length - bufferOffset;
    }
    var k: nat := 0;
    while k < payloadLen
      invariant k <= payloadLen
      invariant forall b :: 0 <= b < buffer.Length ==>
        buffer[b] == if bufferOffset <= b < bufferOffset + k then payload[b - bufferOffset] else old(buffer[b])
    {
      buffer[bufferOffset + k] := payload[k];
      k := k + 1;
    }
  }

  /** A posted message on the receiver: the user's buffer and its packet bitmap. */
  class PostedMessage {
    const buffer: array<byte>
    const mtuBytes: nat
    const backendBitmap: BackendBitmap

    ghost predicate Valid()
      reads backendBitmap, backendBitmap.packetBitmap
    {
      && backendBitmap.Valid()
      && (backendBitmap.packetBitmap as object) != buffer
    }

    /** The bytes and bits are those of message m, as far as they have arrived. */
    ghost predicate Receives(m: Outgoing)
      reads this, buffer, backendBitmap, backendBitmap.packetBitmap
    {
      && Valid() && m.Valid()
      && mtuBytes == m.layout.mtu
      && backendBitmap.totalPackets == m.layout.Packets()
      && Published(m, buffer[..], backendBitmap.packetBitmap[..])
    }

    constructor (buffer: array<byte>, mtuBytes: nat, packetsPerChunk: nat, totalPackets: nat)
      requires packetsPerChunk > 0
      ensures Valid() && this.buffer == buffer && this.mtuBytes == mtuBytes
      ensures backendBitmap.totalPackets == totalPackets && backendBitmap.packetsPerChunk == packetsPerChunk
      ensures forall p: nat :: !Has(backendBitmap.packetBitmap[..], p)
    {
      this.buffer := buffer;
      this.mtuBytes := mtuBytes;
      this.backendBitmap := new BackendBitmap(totalPackets, packetsPerChunk);
    }

    /** The part of process_packet that follows the slot checks. */
    method ProcessPacket(packet: Packet)
      requires Valid()
      modifies buffer, backendBitmap.packetBitmap
      ensures Valid()
      ensures var p, total := packet.header.packetOffset, backendBitmap.totalPackets;
        var duplicate := p < total && Has(old(backendBitmap.packetBitmap[..]), p);
        && buffer[..] == (if duplicate then old(buffer[..])
                          else Written(old(buffer[..]), mtuBytes, p, packet.payload))
        && backendBitmap.packetBitmap[..] == (if duplicate then old(backendBitmap.packetBitmap[..])
                                              else Received(old(backendBitmap.packetBitmap[..]), total, p))
    {
      var duplicate := backendBitmap.IsPacketReceived(packet.header.packetOffset);
      if duplicate {
        return;
      }
      WritePacketToBuffer(buffer, mtuBytes, packet.header.packetOffset, packet.payload);
      assert backendBitmap.packetBitmap[..] == old(backendBitmap.packetBitmap[..]);
      ghost var written := buffer[..];
      var _ := backendBitmap.SetPacketReceived(packet.header.packetOffset);
      assert buffer[..] == written;
    }

    /** Any packet of the message leaves the bitmap truthful; a packet of the message
        ends up received; a packet numbered past the message changes nothing. */
    method ReceivePacket(ghost m: Outgoing, packet: Packet)
      requires Receives(m)
      requires packet.header.packetOffset < m.layout.Packets() ==>
        packet == m.DataPacket(packet.header.packetOffset)
      modifies buffer, backendBitmap.packetBitmap
      ensures Receives(m)
      ensures var p := packet.header.packetOffset;
        if p < m.layout.Packets()
        then forall q: nat :: Has(backendBitmap.packetBitmap[..], q)
                         <==> q == p || Has(old(backendBitmap.packetBitmap[..]), q)
        else buffer[..] == old(buffer[..]) && backendBitmap.packetBitmap[..] == old(backendBitmap.packetBitmap[..])
    {
      ghost var p := packet.header.packetOffset;
      ghost var before := buffer[..];
      ProcessPacket(packet);
      if p < m.layout.Packets() {
        forall q: nat | q < m.layout.Packets() && Has(backendBitmap.packetBitmap[..], q)
          ensures HasBytes(m, buffer[..], q)
        {
          WriteKeepsBytes(m, before, p, q);
        }
      } else {
        PastTheEndWritesNothing(m, before, p, packet.payload);
      }
    }
  }
}
