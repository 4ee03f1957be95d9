/** How a message of `length` bytes is cut into packets and chunks, on both sides. */
module Geometry {

  const HEADER_BYTES: nat := 32
  // (64 * 1024) - 8 - sizeof(SDRPacketHeader)
  const MAX_PAYLOAD_SIZE: nat := 65536 - 8 - HEADER_BYTES
  const PACKET_OFFSETS: nat := 262144
  const UINT16_VALUES: nat := 65536
  const UINT32_MAX: nat := 0xFFFF_FFFF

  function Min(a: nat, b: nat): nat {
    if a < b then a else b
  }

  function Max(a: nat, b: nat): nat {
    if a < b then b else a
  }

  /** Ceiling division as the source writes it. */
  function CeilDiv(a: nat, b: nat): nat
    requires b > 0
  {
    (a + b - 1) / b
  }

  lemma CeilBounds(a: nat, b: nat)
    requires b > 0
    ensures a <= CeilDiv(a, b) * b < a + b
  {
    var n := a + b - 1;
    assert n == (n / b) * b + n % b;
  }

  lemma MulMonotone(x: nat, y: nat, b: nat)
    requires x <= y
    ensures x * b <= y * b
  {
  }

  lemma MulStep(x: nat, y: nat, b: nat)
    requires x < y
    ensures x * b + b <= y * b
  {
    MulMonotone(x + 1, y, b);
    assert (x + 1) * b == x * b + b;
  }

  lemma MulAssociates(a: nat, b: nat, c: nat)
    ensures a * (b * c) == (a * b) * c
  {
  }

  lemma MulSum(a: nat, b: nat, c: nat)
    ensures (a + b) * c == a * c + b * c
  {
  }

  lemma MulDivides(p: nat, k: nat)
    requires k > 0
    ensures p * k / k == p
  {
    MulSum(p, 1, k);
    BlockOf(p * k, k, p);
  }

  lemma CeilUnique(a: nat, b: nat, q: nat)
    requires b > 0 && a <= q * b < a + b
    ensures q == CeilDiv(a, b)
  {
    CeilBounds(a, b);
    var r := CeilDiv(a, b);
    if q < r {
      MulStep(q, r, b);
    } else if r < q {
      MulStep(r, q, b);
    }
  }

  /** The sender's ceil(length / (mtu * ppc)) is the receiver's ceil(ceil(length / mtu) / ppc). */
  lemma CountsAgree(length: nat, mtu: nat, ppc: nat)
    requires mtu > 0 && ppc > 0
    ensures mtu * ppc > 0
    ensures CeilDiv(length, mtu * ppc) == CeilDiv(CeilDiv(length, mtu), ppc)
  {
    MulMonotone(1, mtu, ppc);
    var packets := CeilDiv(length, mtu);
    var chunks := CeilDiv(packets, ppc);
    CeilBounds(length, mtu);
    CeilBounds(packets, ppc);
    ScaledBounds(length, mtu, ppc, packets, chunks * ppc);
    assert chunks * ppc * mtu == chunks * (mtu * ppc);
    CeilUnique(length, mtu * ppc, chunks);
  }

  lemma ScaledBounds(length: nat, mtu: nat, ppc: nat, packets: nat, slots: nat)
    requires mtu > 0 && ppc > 0
    requires length <= packets * mtu < length + mtu
    requires packets <= slots < packets + ppc
    ensures length <= slots * mtu < length + mtu * ppc
  {
    MulMonotone(packets, slots, mtu);
    MulStep(slots, packets + ppc, mtu);
    assert (packets + ppc) * mtu == packets * mtu + mtu * ppc;
  }

  /** A quotient is the block holding the index: p / k == c exactly when p lies in block c. */
  lemma BlockOf(p: nat, k: nat, c: nat)
    requires k > 0
    ensures p / k == c <==> c * k <= p < (c + 1) * k
  {
    assert p == (p / k) * k + p % k;
    assert (c + 1) * k == c * k + k;
    if p / k < c {
      MulStep(p / k, c, k);
    } else if c < p / k {
      MulStep(c, p / k, k);
    }
  }

  lemma BlockInRange(p: nat, k: nat, n: nat)
    requires k > 0 && p < n
    ensures p / k < CeilDiv(n, k)
  {
    BlockOf(p, k, p / k);
    CeilBounds(n, k);
    if CeilDiv(n, k) <= p / k {
      MulMonotone(CeilDiv(n, k), p / k, k);
    }
  }

  lemma BlockStartInRange(c: nat, k: nat, n: nat)
    requires k > 0 && c < CeilDiv(n, k)
    ensures c * k < n
  {
    CeilBounds(n, k);
    MulStep(c, CeilDiv(n, k), k);
  }

  lemma BlockStartOutOfRange(c: nat, k: nat, n: nat)
    requires k > 0 && c >= CeilDiv(n, k)
    ensures c * k >= n
  {
    CeilBounds(n, k);
    MulMonotone(CeilDiv(n, k), c, k);
  }

  /** First packet of chunk c, and one past its last packet, out of `packets` in all. */
  function ChunkLo(ppc: nat, c: nat): nat {
    c * ppc
  }

  function ChunkHi(packets: nat, ppc: nat, c: nat): nat {
    Min(c * ppc + ppc, packets)
  }

  function ChunkOf(ppc: nat, p: nat): nat
    requires ppc > 0
  {
    p / ppc
  }

  /** The packets of chunk c are those whose quotient by ppc is c. */
  lemma ChunkMembers(packets: nat, ppc: nat, c: nat, p: nat)
    requires ppc > 0 && p < packets
    ensures ChunkLo(ppc, c) <= p < ChunkHi(packets, ppc, c) <==> ChunkOf(ppc, p) == c
  {
    BlockOf(p, ppc, c);
    assert (c + 1) * ppc == c * ppc + ppc;
  }

  /** One message: its length and the parameters both sides agreed on. */
  datatype Layout = Layout(length: nat, mtu: nat, ppc: nat) {

    function Packets(): nat
      requires mtu > 0
    {
      CeilDiv(length, mtu)
    }

    function Chunks(): nat
      requires mtu > 0 && ppc > 0
    {
      CeilDiv(Packets(), ppc)
    }

    /** What the two sides must have negotiated, and the field widths they rely on:
        18 bits of packet offset, 16 bits of chunk number. */
    predicate Valid() {
      && length > 0
      && 1 <= mtu <= MAX_PAYLOAD_SIZE
      && 1 <= ppc < UINT16_VALUES
      && Packets() <= PACKET_OFFSETS
      && Chunks() < UINT16_VALUES
    }

    function PacketLo(p: nat): nat {
      p * mtu
    }

    function PacketHi(p: nat): nat {
      Min(p * mtu + mtu, length)
    }

    lemma PacketSlice(p: nat)
      requires mtu > 0 && p < Packets()
      ensures PacketLo(p) < PacketHi(p) <= length
      ensures PacketHi(p) - PacketLo(p) <= mtu
    {
      BlockStartInRange(p, mtu, length);
    }

    /** Every byte of the message lies in exactly one packet. */
    lemma PacketOfByte(b: nat)
      requires mtu > 0 && b < length
      ensures b / mtu < Packets()
      ensures PacketLo(b / mtu) <= b < PacketHi(b / mtu)
    {
      BlockInRange(b, mtu, length);
      ChunkMembers(length, mtu, b / mtu, b);
    }

    lemma ChunkRange(c: nat)
      requires mtu > 0 && ppc > 0 && c < Chunks()
      ensures ChunkLo(ppc, c) < ChunkHi(Packets(), ppc, c) <= Packets()
    {
      BlockStartInRange(c, ppc, Packets());
    }

    lemma HasChunk()
      requires Valid()
      ensures 0 < Chunks() && 0 < Packets()
    {
      CeilBounds(length, mtu);
      CeilBounds(Packets(), ppc);
    }
  }

  /** calculate_bitmap_sizes of the receiver: the least packet count covering the
      bytes and the least chunk count covering the packets, or none at all when
      a parameter is zero. */
  method CalculateBitmapSizes(totalBytes: nat, mtu: nat, ppc: nat) returns (packets: nat, chunks: nat)
    ensures mtu == 0 || ppc == 0 ==> packets == 0 && chunks == 0
    ensures mtu > 0 && ppc > 0 ==> totalBytes <= packets * mtu < totalBytes + mtu
    ensures mtu > 0 && ppc > 0 ==> packets <= chunks * ppc < packets + ppc
    ensures mtu > 0 && ppc > 0 ==> mtu * ppc > 0 && chunks == CeilDiv(totalBytes, mtu * ppc)
  {
    if mtu == 0 || ppc == 0 {
      return 0, 0;
    }
    packets := (totalBytes + mtu - 1) / mtu;
    chunks := (packets + ppc - 1) / ppc;
    CeilBounds(totalBytes, mtu);
    CeilBounds(packets, ppc);
    CountsAgree(totalBytes, mtu, ppc);
  }
}
