/** The packet bitmap of one message, written by the receiver's workers. */
module Backend {
  import opened WordBits
  import opened Geometry

  /** Every packet of lo..hi has been received. */
  predicate AllSet(words: seq<Word>, lo: nat, hi: nat) {
    forall p: nat :: lo <= p < hi ==> Has(words, p)
  }

  predicate ChunkReceived(words: seq<Word>, packets: nat, ppc: nat, c: nat) {
    AllSet(words, ChunkLo(ppc, c), ChunkHi(packets, ppc, c))
  }

  function Count(words: seq<Word>, lo: nat, hi: nat): (n: nat)
    requires lo <= hi
    ensures n <= hi - lo
    decreases hi - lo
  {
    if lo == hi then 0 else Count(words, lo, hi - 1) + if Has(words, hi - 1) then 1 else 0
  }

  ghost function SetBits(words: seq<Word>, lo: nat, hi: nat): set<nat> {
    set p: nat | lo <= p < hi && Has(words, p)
  }

  /** It counts the set bits, each once. */
  lemma {:induction false} CountIsSize(words: seq<Word>, lo: nat, hi: nat)
    requires lo <= hi
    ensures Count(words, lo, hi) == |SetBits(words, lo, hi)|
    decreases hi - lo
  {
    hide Has;
    if lo < hi {
      CountIsSize(words, lo, hi - 1);
      var before := SetBits(words, lo, hi - 1);
      assert SetBits(words, lo, hi) == if Has(words, hi - 1) then before + {hi - 1} else before;
    }
  }

  /** Packets received in the chunks from 0 up to c. */
  function ChunkCounts(words: seq<Word>, packets: nat, ppc: nat, c: nat): nat
    requires ppc > 0 && c <= CeilDiv(packets, ppc)
  {
    if c == 0 then 0 else
      BlockStartInRange(c - 1, ppc, packets);
      ChunkCounts(words, packets, ppc, c - 1)
      + Count(words, ChunkLo(ppc, c - 1), ChunkHi(packets, ppc, c - 1))
  }

  /** set_packet_received as a change of the words, and what it returns. */
  function Received(words: seq<Word>, packets: nat, p: nat): (r: seq<Word>)
    requires |words| == WordsFor(packets)
    ensures |r| == |words|
  {
    if p < packets then Put(words, p) else words
  }

  predicate NewlyReceived(words: seq<Word>, packets: nat, p: nat) {
    p < packets && !Has(words, p)
  }

  /** The words after a sequence of set_packet_received calls, and how many returned true. */
  function Calls(words: seq<Word>, packets: nat, offsets: seq<nat>): (r: (seq<Word>, nat))
    requires |words| == WordsFor(packets)
    ensures |r.0| == |words|
  {
    if offsets == [] then (words, 0) else
      var before := Calls(words, packets, offsets[..|offsets| - 1]);
      var p := offsets[|offsets| - 1];
      (Received(before.0, packets, p), before.1 + if NewlyReceived(before.0, packets, p) then 1 else 0)
  }

  class BackendBitmap {
    const packetBitmap: array<Word>
    const totalPackets: nat
    const packetsPerChunk: nat

    ghost predicate Valid()
      reads packetBitmap
    {
      packetBitmap.Length == WordsFor(totalPackets) && packetsPerChunk > 0
    }

    constructor (totalPackets: nat, packetsPerChunk: nat)
      requires packetsPerChunk > 0
      ensures Valid() && fresh(packetBitmap)
      ensures this.totalPackets == totalPackets && this.packetsPerChunk == packetsPerChunk
      ensures forall p: nat :: !Has(packetBitmap[..], p)
    {
      this.totalPackets := totalPackets;
      this.packetsPerChunk := packetsPerChunk;
      this.packetBitmap := new Word[WordsFor(totalPackets)](_ => ZERO_WORD);
    }

    method SetPacketReceived(packetOffset: nat) returns (newly: bool)
      requires Valid()
      modifies packetBitmap
      ensures packetBitmap[..] == Received(old(packetBitmap[..]), totalPackets, packetOffset)
      ensures newly <==> NewlyReceived(old(packetBitmap[..]), totalPackets, packetOffset)
    {
      if packetOffset >= totalPackets {
        return false;
      }
      var wordIdx, bitPos := packetOffset / WORD_BITS, packetOffset % WORD_BITS;
      var bitMask := OneHot(bitPos);
      var oldValue := packetBitmap[wordIdx];
      packetBitmap[wordIdx] := Or(oldValue, bitMask);
      newly := And(oldValue, bitMask) == ZERO_WORD;
      TestBit(oldValue, bitPos);
      assert packetBitmap[..] == Put(old(packetBitmap[..]), packetOffset);
    }

    method IsPacketReceived(packetOffset: nat) returns (received: bool)
      requires Valid()
      ensures received <==> packetOffset < totalPackets && Has(packetBitmap[..], packetOffset)
    {
      if packetOffset >= totalPackets {
        return false;
      }
      var value := packetBitmap[packetOffset / WORD_BITS];
      TestBit(value, packetOffset % WORD_BITS);
      received := And(value, OneHot(packetOffset % WORD_BITS)) != ZERO_WORD;
    }

    /** The masked multi-word scan: first word from its start bit, whole words in
        between, last word up to its end bit. */
    method CheckChunkRange(startPacket: nat, endPacket: nat) returns (complete: bool)
      requires Valid() && startPacket < endPacket <= totalPackets
      ensures complete <==> AllSet(packetBitmap[..], startPacket, endPacket)
    {
      var startWord, startBit := startPacket / WORD_BITS, startPacket % WORD_BITS;
      var endWord, endBit := (endPacket - 1) / WORD_BITS, (endPacket - 1) % WORD_BITS + 1;
      ghost var words := packetBitmap[..];
      if startWord == endWord {
        var mask := RangeMask(startBit, endBit);
        var value := packetBitmap[startWord];
        complete := And(value, mask) == mask;
        Covers(value, mask);
        WordScan(words, startWord, startBit, endBit);
      } else {
        var firstMask := RangeMask(startBit, WORD_BITS);
        var firstValue := packetBitmap[startWord];
        Covers(firstValue, firstMask);
        WordScan(words, startWord, startBit, WORD_BITS);
        if And(firstValue, firstMask) != firstMask {
          return false;
        }
        var word := startWord + 1;
        while word < endWord
          invariant startWord < word <= endWord
          invariant AllSet(words, startPacket, word * WORD_BITS)
        {
          WordScan(words, word, 0, WORD_BITS);
          if packetBitmap[word] != FULL_WORD {
            return false;
          }
          word := word + 1;
        }
        var lastMask := RangeMask(0, endBit);
        var lastValue := packetBitmap[endWord];
        complete := And(lastValue, lastMask) == lastMask;
        Covers(lastValue, lastMask);
        WordScan(words, endWord, 0, endBit);
      }
    }

    method IsChunkComplete(chunkId: nat) returns (complete: bool)
      requires Valid() && chunkId < CeilDiv(totalPackets, packetsPerChunk)
      ensures complete <==> ChunkReceived(packetBitmap[..], totalPackets, packetsPerChunk, chunkId)
    {
      var startPacket := chunkId * packetsPerChunk;
      var endPacket := startPacket + packetsPerChunk;
      if endPacket > totalPackets {
        endPacket := totalPackets;
      }
      BlockStartInRange(chunkId, packetsPerChunk, totalPackets);
      complete := CheckChunkRange(startPacket, endPacket);
    }

    /** A chunk's count reaches its size exactly when the chunk is complete; past the last
        chunk there is nothing to count. */
    method GetChunkPacketCount(chunkId: nat) returns (count: nat)
      requires Valid()
      ensures chunkId < CeilDiv(totalPackets, packetsPerChunk) ==>
        var lo, hi := ChunkLo(packetsPerChunk, chunkId), ChunkHi(totalPackets, packetsPerChunk, chunkId);
        && lo < hi && count == Count(packetBitmap[..], lo, hi)
        && (count == hi - lo <==> ChunkReceived(packetBitmap[..], totalPackets, packetsPerChunk, chunkId))
      ensures chunkId >= CeilDiv(totalPackets, packetsPerChunk) ==> count == 0
    {
      var startPacket := chunkId * packetsPerChunk;
      var endPacket := startPacket + packetsPerChunk;
      if endPacket > totalPackets {
        endPacket := totalPackets;
      }
      if chunkId < CeilDiv(totalPackets, packetsPerChunk) {
        BlockStartInRange(chunkId, packetsPerChunk, totalPackets);
      } else {
        BlockStartOutOfRange(chunkId, packetsPerChunk, totalPackets);
      }
      count := 0;
      var i := startPacket;
      while i < endPacket
        invariant startPacket <= i && (i == startPacket || i <= endPacket)
        invariant count == Count(packetBitmap[..], startPacket, i)
      {
        var received := IsPacketReceived(i);
        if received {
          count := count + 1;
        }
        i := i + 1;
      }
      CountFull(packetBitmap[..], startPacket, i);
    }

    method GetTotalPacketsReceived() returns (count: nat)
      requires Valid()
      ensures count == Count(packetBitmap[..], 0, totalPackets)
    {
      count := 0;
      var i := 0;
      while i < totalPackets
        invariant 0 <= i <= totalPackets
        invariant count == Count(packetBitmap[..], 0, i)
      {
        var received := IsPacketReceived(i);
        if received {
          count := count + 1;
        }
        i := i + 1;
      }
    }
  }

  /** One word of the scan: its bits lo..hi are the packets at those positions. */
  lemma WordScan(words: seq<Word>, word: nat, lo: nat, hi: nat)
    requires word < |words| && lo <= hi <= WORD_BITS
    ensures AllSet(words, word * WORD_BITS + lo, word * WORD_BITS + hi)
       <==> forall i :: lo <= i < hi ==> words[word][i]
    ensures lo == 0 && hi == WORD_BITS ==>
      (words[word] == FULL_WORD <==> forall i :: lo <= i < hi ==> words[word][i])
  {
    if AllSet(words, word * WORD_BITS + lo, word * WORD_BITS + hi) {
      forall i | lo <= i < hi ensures words[word][i] {
        assert Has(words, word * WORD_BITS + i);
      }
    }
  }

  /** The bitmap at successive moments: bits are only ever set. */
  ghost predicate OnlySets(history: nat -> seq<Word>, words: nat) {
    && (forall t :: |history(t)| == words)
    && forall t: nat, u: nat :: t <= u ==> SetsMore(history(t), history(u))
  }

  ghost predicate SetsMore(before: seq<Word>, after: seq<Word>) {
    forall p: nat :: Has(before, p) ==> Has(after, p)
  }

  /** What a scan that starts with word `first` at moment 0 and loads one word a moment
      gets to see. */
  ghost function Loaded(history: nat -> seq<Word>, words: nat, first: nat): (seen: seq<Word>)
    requires OnlySets(history, words)
    ensures |seen| == words
  {
    seq(words, w requires 0 <= w < words => history(if w < first then 0 else w - first)[w])
  }

  /** While other workers set bits between its loads, the answer the scan computes from
      what it saw is still good: true means that the whole range is set on return, and
      false means that some packet was missing at the call. */
  lemma ScanUnderInterference(history: nat -> seq<Word>, words: nat, lo: nat, hi: nat)
    requires OnlySets(history, words) && lo < hi <= words * WORD_BITS
    ensures var first, last := lo / WORD_BITS, (hi - 1) / WORD_BITS;
      var seen := Loaded(history, words, first);
      && (AllSet(seen, lo, hi) ==> AllSet(history(last - first), lo, hi))
      && (!AllSet(seen, lo, hi) ==> exists p: nat :: lo <= p < hi && !Has(history(0), p))
  {
    var first, last := lo / WORD_BITS, (hi - 1) / WORD_BITS;
    var seen := Loaded(history, words, first);
    forall p: nat | lo <= p < hi
      ensures (Has(seen, p) ==> Has(history(last - first), p)) && (Has(history(0), p) ==> Has(seen, p))
    {
      var t := p / WORD_BITS - first;
      assert SetsMore(history(0), history(t)) && SetsMore(history(t), history(last - first));
      assert Has(seen, p) <==> Has(history(t), p);
    }
  }

  // ---- conservation ----

  lemma {:induction false} CountFull(words: seq<Word>, lo: nat, hi: nat)
    requires lo <= hi
    ensures Count(words, lo, hi) == hi - lo <==> AllSet(words, lo, hi)
    decreases hi - lo
  {
    if lo < hi {
      CountFull(words, lo, hi - 1);
      assert AllSet(words, lo, hi) <==> AllSet(words, lo, hi - 1) && Has(words, hi - 1);
    }
  }

  lemma {:induction false} CountSplit(words: seq<Word>, lo: nat, mid: nat, hi: nat)
    requires lo <= mid <= hi
    ensures Count(words, lo, hi) == Count(words, lo, mid) + Count(words, mid, hi)
    decreases hi - mid
  {
    if mid < hi {
      CountSplit(words, lo, mid, hi - 1);
    }
  }

  lemma {:induction false} CountPut(words: seq<Word>, p: nat, lo: nat, hi: nat)
    requires lo <= hi && p / WORD_BITS < |words|
    ensures Count(Put(words, p), lo, hi)
         == Count(words, lo, hi) + if lo <= p < hi && !Has(words, p) then 1 else 0
    decreases hi - lo
  {
    if lo < hi {
      CountPut(words, p, lo, hi - 1);
    }
  }

  lemma {:induction false} CountNone(words: seq<Word>, lo: nat, hi: nat)
    requires lo <= hi && forall p: nat :: !Has(words, p)
    ensures Count(words, lo, hi) == 0
    decreases hi - lo
  {
    if lo < hi {
      CountNone(words, lo, hi - 1);
    }
  }

  lemma {:induction false} ChunkCountsPrefix(words: seq<Word>, packets: nat, ppc: nat, c: nat)
    requires ppc > 0 && c <= CeilDiv(packets, ppc)
    ensures ChunkCounts(words, packets, ppc, c) == Count(words, 0, Min(c * ppc, packets))
  {
    if c > 0 {
      ChunkCountsPrefix(words, packets, ppc, c - 1);
      BlockStartInRange(c - 1, ppc, packets);
      ChunkEdges(packets, ppc, c - 1);
      CountSplit(words, 0, ChunkLo(ppc, c - 1), ChunkHi(packets, ppc, c - 1));
    }
  }

  lemma ChunkEdges(packets: nat, ppc: nat, c: nat)
    requires c * ppc < packets
    ensures Min(c * ppc, packets) == ChunkLo(ppc, c)
    ensures Min((c + 1) * ppc, packets) == ChunkHi(packets, ppc, c)
  {
    assert (c + 1) * ppc == c * ppc + ppc;
  }

  /** The chunk counts add up to the packet count. */
  lemma ChunkCountsTotal(words: seq<Word>, packets: nat, ppc: nat)
    requires ppc > 0
    ensures ChunkCounts(words, packets, ppc, CeilDiv(packets, ppc)) == Count(words, 0, packets)
  {
    ChunkCountsPrefix(words, packets, ppc, CeilDiv(packets, ppc));
    CeilBounds(packets, ppc);
  }

  lemma {:induction false} CallsSet(packets: nat, words: seq<Word>, offsets: seq<nat>, p: nat)
    requires |words| == WordsFor(packets)
    ensures Has(Calls(words, packets, offsets).0, p) <==> Has(words, p) || (p < packets && p in offsets)
    decreases |offsets|
  {
    if offsets != [] {
      var n := |offsets| - 1;
      CallsSet(packets, words, offsets[..n], p);
      assert p in offsets <==> p in offsets[..n] || p == offsets[n];
    }
  }

  lemma {:induction false} CallsCount(packets: nat, words: seq<Word>, offsets: seq<nat>)
    requires |words| == WordsFor(packets) && forall p: nat :: !Has(words, p)
    ensures Calls(words, packets, offsets).1 == Count(Calls(words, packets, offsets).0, 0, packets)
    decreases |offsets|
  {
    if offsets == [] {
      CountNone(words, 0, packets);
    } else {
      var n := |offsets| - 1;
      CallsCount(packets, words, offsets[..n]);
      if offsets[n] < packets {
        CountPut(Calls(words, packets, offsets[..n]).0, offsets[n], 0, packets);
      }
    }
  }

  /** Over any sequence of calls on a fresh bitmap, repeats and out-of-range offsets
      included, the true returns, the packets received and the sum of the chunk
      counts are the same number. */
  lemma Conservation(packets: nat, ppc: nat, words: seq<Word>, offsets: seq<nat>)
    requires ppc > 0 && |words| == WordsFor(packets) && forall p: nat :: !Has(words, p)
    ensures var (after, newly) := Calls(words, packets, offsets);
      && newly == Count(after, 0, packets)
      && newly == ChunkCounts(after, packets, ppc, CeilDiv(packets, ppc))
      && forall p: nat :: Has(after, p) <==> p < packets && p in offsets
  {
    var (after, newly) := Calls(words, packets, offsets);
    CallsCount(packets, words, offsets);
    ChunkCountsTotal(after, packets, ppc);
    forall p: nat ensures Has(after, p) <==> p < packets && p in offsets {
      CallsSet(packets, words, offsets, p);
    }
  }
}
