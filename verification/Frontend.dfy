/** The chunk bitmap of one message, coalesced from the packet bitmap by a poller. */
module Frontend {
  import opened WordBits
  import opened Geometry
  import opened Backend

  /** A chunk bit is a promise about the packets: never more than what was received. */
  ghost predicate Sound(chunkWords: seq<Word>, packetWords: seq<Word>, packets: nat, ppc: nat) {
    ppc > 0 &&
    forall c: nat :: Has(chunkWords, c) ==>
      c < CeilDiv(packets, ppc) && ChunkReceived(packetWords, packets, ppc, c)
  }

  class FrontendBitmap {
    const backendBitmap: BackendBitmap?
    const chunkBitmap: array<Word>
    const totalChunks: nat

    ghost predicate Valid()
      reads chunkBitmap, backendBitmap, if backendBitmap == null then {} else {backendBitmap.packetBitmap}
    {
      && chunkBitmap.Length == WordsFor(totalChunks)
      && (backendBitmap != null ==>
            && backendBitmap.Valid()
            && backendBitmap.packetBitmap != chunkBitmap
            && totalChunks <= CeilDiv(backendBitmap.totalPackets, backendBitmap.packetsPerChunk))
    }

    /** Whether the packet bitmap says that chunk c is complete. */
    ghost predicate BackendSays(c: nat)
      reads backendBitmap, if backendBitmap == null then {} else {backendBitmap.packetBitmap}
    {
      && backendBitmap != null
      && ChunkReceived(backendBitmap.packetBitmap[..], backendBitmap.totalPackets, backendBitmap.packetsPerChunk, c)
    }

    constructor (backendBitmap: BackendBitmap?, totalChunks: nat)
      requires backendBitmap != null ==>
        && backendBitmap.Valid()
        && totalChunks <= CeilDiv(backendBitmap.totalPackets, backendBitmap.packetsPerChunk)
      ensures Valid() && fresh(chunkBitmap)
      ensures this.backendBitmap == backendBitmap && this.totalChunks == totalChunks
      ensures forall c: nat :: !Has(chunkBitmap[..], c)
    {
      this.backendBitmap := backendBitmap;
      this.totalChunks := totalChunks;
      this.chunkBitmap := new Word[WordsFor(totalChunks)](_ => ZERO_WORD);
    }

    method IsChunkComplete(chunkId: nat) returns (complete: bool)
      requires Valid()
      ensures complete <==> chunkId < totalChunks && Has(chunkBitmap[..], chunkId)
    {
      if chunkId >= totalChunks {
        return false;
      }
      var value := chunkBitmap[chunkId / WORD_BITS];
      TestBit(value, chunkId % WORD_BITS);
      complete := And(value, OneHot(chunkId % WORD_BITS)) != ZERO_WORD;
    }

    /** The answer is whether the bit is now set. */
    method CheckAndSetChunk(chunkId: nat) returns (complete: bool)
      requires Valid() && chunkId < totalChunks && backendBitmap != null
      modifies chunkBitmap
      ensures chunkBitmap[..] == if BackendSays(chunkId) && !Has(old(chunkBitmap[..]), chunkId)
                                 then Put(old(chunkBitmap[..]), chunkId) else old(chunkBitmap[..])
      ensures complete <==> Has(chunkBitmap[..], chunkId)
    {
      var already := IsChunkComplete(chunkId);
      if already {
        return true;
      }
      var received := backendBitmap.IsChunkComplete(chunkId);
      if !received {
        return false;
      }
      var wordIdx, bitPos := chunkId / WORD_BITS, chunkId % WORD_BITS;
      var bitMask := OneHot(bitPos);
      var oldValue := chunkBitmap[wordIdx];
      chunkBitmap[wordIdx] := Or(oldValue, bitMask);
      TestBit(oldValue, bitPos);
      assert chunkBitmap[..] == Put(old(chunkBitmap[..]), chunkId);
      complete := And(oldValue, bitMask) == ZERO_WORD;
    }

    /** One poll adds exactly the chunks whose packets are all there, and clears nothing. */
    method UpdateChunkBitmap()
      requires Valid()
      modifies chunkBitmap
      ensures Valid()
      ensures forall c: nat ::
        Has(chunkBitmap[..], c) <==> Has(old(chunkBitmap[..]), c) || (c < totalChunks && BackendSays(c))
    {
      if backendBitmap == null {
        return;
      }
      var chunkId := 0;
      while chunkId < totalChunks
        invariant 0 <= chunkId <= totalChunks
        invariant forall c: nat ::
          Has(chunkBitmap[..], c) <==> Has(old(chunkBitmap[..]), c) || (c < chunkId && BackendSays(c))
      {
        var _ := CheckAndSetChunk(chunkId);
        chunkId := chunkId + 1;
      }
    }

    method GetTotalChunksCompleted() returns (count: nat)
      requires Valid()
      ensures count == Count(chunkBitmap[..], 0, totalChunks)
    {
      count := 0;
      var i := 0;
      while i < totalChunks
        invariant 0 <= i <= totalChunks
        invariant count == Count(chunkBitmap[..], 0, i)
      {
        var complete := IsChunkComplete(i);
        if complete {
          count := count + 1;
        }
        i := i + 1;
      }
    }

    /** A poll keeps every chunk bit a true promise, and with the workers at rest
        the chunk count reads full exactly when every packet has been received. */
    method PollOnce()
      requires Valid() && backendBitmap != null
      requires totalChunks == CeilDiv(backendBitmap.totalPackets, backendBitmap.packetsPerChunk)
      requires Sound(chunkBitmap[..], backendBitmap.packetBitmap[..],
                     backendBitmap.totalPackets, backendBitmap.packetsPerChunk)
      modifies chunkBitmap
      ensures Valid()
      ensures Sound(chunkBitmap[..], backendBitmap.packetBitmap[..],
                    backendBitmap.totalPackets, backendBitmap.packetsPerChunk)
      ensures Count(chunkBitmap[..], 0, totalChunks) == totalChunks
         <==> AllSet(backendBitmap.packetBitmap[..], 0, backendBitmap.totalPackets)
    {
      UpdateChunkBitmap();
      ChunksAndPackets(chunkBitmap[..], backendBitmap.packetBitmap[..],
                       backendBitmap.totalPackets, backendBitmap.packetsPerChunk);
    }
  }

  /** Workers only add packets, so they never break a promise the chunk bitmap made. */
  lemma SoundUnderArrivals(chunkWords: seq<Word>, packetWords: seq<Word>, packets: nat, ppc: nat, offsets: seq<nat>)
    requires |packetWords| == WordsFor(packets) && Sound(chunkWords, packetWords, packets, ppc)
    ensures Sound(chunkWords, Calls(packetWords, packets, offsets).0, packets, ppc)
  {
    forall p: nat | Has(packetWords, p) ensures Has(Calls(packetWords, packets, offsets).0, p) {
      CallsSet(packets, packetWords, offsets, p);
    }
  }

  /** Chunk bits that agree with the packets are all set exactly when all packets are. */
  lemma ChunksAndPackets(chunkWords: seq<Word>, packetWords: seq<Word>, packets: nat, ppc: nat)
    requires ppc > 0
    requires forall c: nat :: c < CeilDiv(packets, ppc) ==>
      (Has(chunkWords, c) <==> ChunkReceived(packetWords, packets, ppc, c))
    ensures Count(chunkWords, 0, CeilDiv(packets, ppc)) == CeilDiv(packets, ppc)
       <==> AllSet(packetWords, 0, packets)
  {
    var chunks := CeilDiv(packets, ppc);
    CountFull(chunkWords, 0, chunks);
    if AllSet(chunkWords, 0, chunks) {
      forall p: nat | p < packets ensures Has(packetWords, p) {
        BlockInRange(p, ppc, packets);
        ChunkMembers(packets, ppc, p / ppc, p);
        assert ChunkReceived(packetWords, packets, ppc, p / ppc);
      }
    }
  }
}
