/** Where encode_and_send puts data and parity blocks: the pointer tables it hands to the
    library stripe by stripe, as chunk numbers in the sender's storage. */
module Stripes {
  import opened Geometry
  import opened Control

  /** The arguments of one ec_encode_data call. */
  datatype EncodeCall = EncodeCall(data: seq<nat>, parity: seq<nat>)

  function StripesFor(chunks: nat, k: nat): nat
    requires k > 0
  {
    CeilDiv(chunks, k)
  }

  /** How many data blocks a stripe has; the last one may be short. */
  function StripeSize(chunks: nat, k: nat, s: nat): nat
    requires k > 0 && s < StripesFor(chunks, k)
  {
    BlockStartInRange(s, k, chunks);
    Min(k, chunks - s * k)
  }

  function StripeCall(chunks: nat, k: nat, m: nat, s: nat): EncodeCall
    requires k > 0 && s < StripesFor(chunks, k)
  {
    EncodeCall(seq(k, i requires 0 <= i < k => if i < StripeSize(chunks, k, s) then s * k + i else 0),
               seq(m, p requires 0 <= p < m => chunks + s * m + p))
  }

  /** The encode loop, which refills the same two tables for every stripe. */
  method EncodeStripes(dataChunks: nat, k: nat, m: nat) returns (calls: seq<EncodeCall>)
    requires k > 0
    ensures |calls| == StripesFor(dataChunks, k)
    ensures forall s :: 0 <= s < |calls| ==> calls[s] == StripeCall(dataChunks, k, m, s)
  {
    var stripes := (dataChunks + k - 1) / k;
    var dataPtrs, parityPtrs := new nat[k](_ => 0), new nat[m](_ => 0);
    calls := [];
    var s: nat := 0;
    while s < stripes
      invariant s <= stripes == StripesFor(dataChunks, k) && |calls| == s
      invariant forall r :: 0 <= r < s ==> calls[r] == StripeCall(dataChunks, k, m, r)
    {
      BlockStartInRange(s, k, dataChunks);
      FillData(dataPtrs, dataChunks, k, s);
      FillParity(parityPtrs, dataChunks, m, s);
      assert dataPtrs[..] == StripeCall(dataChunks, k, m, s).data;
      assert parityPtrs[..] == StripeCall(dataChunks, k, m, s).parity;
      calls := calls + [EncodeCall(dataPtrs[..], parityPtrs[..])];
      s := s + 1;
    }
  }

  method FillData(dataPtrs: array<nat>, dataChunks: nat, k: nat, s: nat)
    requires k > 0 && dataPtrs.Length == k && s < StripesFor(dataChunks, k)
    modifies dataPtrs
    ensures forall i :: 0 <= i < k ==> dataPtrs[i] == if i < StripeSize(dataChunks, k, s) then s * k + i else 0
  {
    BlockStartInRange(s, k, dataChunks);
    var stripeData := Min(k, dataChunks - s * k);
    for i := 0 to stripeData
      invariant forall j :: 0 <= j < i ==> dataPtrs[j] == s * k + j
    {
      dataPtrs[i] := s * k + i;
    }
    for i := stripeData to k
      invariant forall j :: 0 <= j < stripeData ==> dataPtrs[j] == s * k + j
      invariant forall j :: stripeData <= j < i ==> dataPtrs[j] == 0
    {
      dataPtrs[i] := 0;
    }
  }

  method FillParity(parityPtrs: array<nat>, dataChunks: nat, m: nat, s: nat)
    requires parityPtrs.Length == m
    modifies parityPtrs
    ensures forall p :: 0 <= p < m ==> parityPtrs[p] == dataChunks + s * m + p
  {
    for p := 0 to m
      invariant forall j :: 0 <= j < p ==> parityPtrs[j] == dataChunks + s * m + j
    {
      parityPtrs[p] := dataChunks + s * m + p;
    }
  }

  // ---- the stripes tile the storage ----

  /** The data blocks the stripes below n protect, in order; padding is not counted. */
  function DataBlocks(chunks: nat, k: nat, m: nat, n: nat): seq<nat>
    requires k > 0 && n <= StripesFor(chunks, k)
  {
    if n == 0 then [] else
      DataBlocks(chunks, k, m, n - 1) + StripeCall(chunks, k, m, n - 1).data[..StripeSize(chunks, k, n - 1)]
  }

  function ParityBlocks(chunks: nat, k: nat, m: nat, n: nat): seq<nat>
    requires k > 0 && n <= StripesFor(chunks, k)
  {
    if n == 0 then [] else ParityBlocks(chunks, k, m, n - 1) + StripeCall(chunks, k, m, n - 1).parity
  }

  lemma {:induction false} DataInOrder(chunks: nat, k: nat, m: nat, n: nat)
    requires k > 0 && n <= StripesFor(chunks, k)
    ensures DataBlocks(chunks, k, m, n) == Span(0, Min(n * k, chunks))
  {
    if n > 0 {
      DataInOrder(chunks, k, m, n - 1);
      BlockStartInRange(n - 1, k, chunks);
      assert n * k == (n - 1) * k + k;
      assert Min((n - 1) * k, chunks) == (n - 1) * k;
    }
  }

  lemma {:induction false} ParityInOrder(chunks: nat, k: nat, m: nat, n: nat)
    requires k > 0 && n <= StripesFor(chunks, k)
    ensures ParityBlocks(chunks, k, m, n) == Span(chunks, chunks + n * m)
  {
    if n > 0 {
      ParityInOrder(chunks, k, m, n - 1);
      assert n * m == (n - 1) * m + m;
    }
  }

  /** All data blocks in stripe order, then all parity blocks in stripe order, are the
      chunks of the storage from first to last: every chunk belongs to exactly one stripe,
      in exactly one place, and no block lies outside. */
  lemma StripesTileStorage(chunks: nat, k: nat, m: nat)
    requires k > 0
    ensures var n := StripesFor(chunks, k);
      DataBlocks(chunks, k, m, n) + ParityBlocks(chunks, k, m, n) == Span(0, chunks + n * m)
  {
    var n := StripesFor(chunks, k);
    CeilBounds(chunks, k);
    DataInOrder(chunks, k, m, n);
    ParityInOrder(chunks, k, m, n);
    SpanJoin(chunks, chunks + n * m);
  }

  lemma SpanJoin(mid: nat, hi: nat)
    requires mid <= hi
    ensures Span(0, mid) + Span(mid, hi) == Span(0, hi)
  {
  }

  /** An entry of the pointer tables that is not padding. */
  datatype Entry = Data(stripe: nat, index: nat) | Parity(stripe: nat, index: nat)

  predicate IsEntry(chunks: nat, k: nat, m: nat, e: Entry)
    requires k > 0
  {
    && e.stripe < StripesFor(chunks, k)
    && e.index < if e.Data? then StripeSize(chunks, k, e.stripe) else m
  }

  /** The block the entry points to. */
  function Pointed(chunks: nat, k: nat, m: nat, e: Entry): nat
    requires k > 0 && IsEntry(chunks, k, m, e)
  {
    var call := StripeCall(chunks, k, m, e.stripe);
    if e.Data? then call.data[e.index] else call.parity[e.index]
  }

  lemma RadixUnique(a: nat, i: nat, b: nat, j: nat, base: nat)
    requires i < base && j < base && a * base + i == b * base + j
    ensures a == b && i == j
  {
    if a < b {
      MulStep(a, b, base);
    } else if b < a {
      MulStep(b, a, base);
    }
  }

  function StorageChunks(chunks: nat, k: nat, m: nat): nat
    requires k > 0
  {
    chunks + StripesFor(chunks, k) * m
  }

  /** The bytes of blocks a and b do not overlap. */
  predicate Apart(a: nat, b: nat, chunkBytes: nat) {
    a * chunkBytes + chunkBytes <= b * chunkBytes || b * chunkBytes + chunkBytes <= a * chunkBytes
  }

  /** The bytes of the block lie in a storage of so many chunks. */
  predicate Inside(block: nat, total: nat, chunkBytes: nat) {
    block * chunkBytes + chunkBytes <= total * chunkBytes
  }

  /** Data entries point below the number of data chunks. */
  lemma DataEntry(chunks: nat, k: nat, m: nat, s: nat, i: nat)
    requires k > 0 && IsEntry(chunks, k, m, Data(s, i))
    ensures i < k && Pointed(chunks, k, m, Data(s, i)) == s * k + i < chunks
  {
    BlockStartInRange(s, k, chunks);
  }

  /** Parity entries point at or above it, inside the storage. */
  lemma ParityEntry(chunks: nat, k: nat, m: nat, s: nat, p: nat)
    requires k > 0 && IsEntry(chunks, k, m, Parity(s, p))
    ensures Pointed(chunks, k, m, Parity(s, p)) == chunks + (s * m + p) < StorageChunks(chunks, k, m)
  {
    hide StripesFor;
    MulStep(s, StripesFor(chunks, k), m);
  }

  lemma EntryInStorage(chunks: nat, k: nat, m: nat, e: Entry)
    requires k > 0 && IsEntry(chunks, k, m, e)
    ensures Pointed(chunks, k, m, e) < StorageChunks(chunks, k, m)
    ensures Pointed(chunks, k, m, e) < chunks <==> e.Data?
  {
    hide Pointed;
    hide IsEntry;
    match e
    case Data(s, i) =>
      DataEntry(chunks, k, m, s, i);
      StorageHoldsData(chunks, k, m);
    case Parity(s, p) =>
      ParityEntry(chunks, k, m, s, p);
  }

  lemma StorageHoldsData(chunks: nat, k: nat, m: nat)
    requires k > 0
    ensures chunks <= StorageChunks(chunks, k, m)
  {
    MulMonotone(0, StripesFor(chunks, k), m);
  }

  lemma EntriesPointApart(chunks: nat, k: nat, m: nat, d: Entry, e: Entry)
    requires k > 0 && IsEntry(chunks, k, m, d) && IsEntry(chunks, k, m, e) && d != e
    ensures Pointed(chunks, k, m, d) != Pointed(chunks, k, m, e)
  {
    hide Pointed;
    hide StripesFor;
    hide StripeSize;
    EntryInStorage(chunks, k, m, d);
    EntryInStorage(chunks, k, m, e);
    if Pointed(chunks, k, m, d) == Pointed(chunks, k, m, e) {
      if d.Data? {
        DataEntry(chunks, k, m, d.stripe, d.index);
        DataEntry(chunks, k, m, e.stripe, e.index);
        RadixUnique(d.stripe, d.index, e.stripe, e.index, k);
      } else {
        ParityEntry(chunks, k, m, d.stripe, d.index);
        ParityEntry(chunks, k, m, e.stripe, e.index);
        RadixUnique(d.stripe, d.index, e.stripe, e.index, m);
      }
    }
  }

  lemma DifferentApart(a: nat, b: nat, chunkBytes: nat)
    requires a != b
    ensures Apart(a, b, chunkBytes)
  {
    if a < b {
      MulStep(a, b, chunkBytes);
    } else {
      MulStep(b, a, chunkBytes);
    }
  }

  lemma SmallerInside(block: nat, total: nat, chunkBytes: nat)
    requires block < total
    ensures Inside(block, total, chunkBytes)
  {
    MulStep(block, total, chunkBytes);
  }

  /** Two different entries, data or parity, of whatever stripes, point to byte ranges that
      do not overlap, inside the storage. */
  lemma BlocksAreDisjoint(chunks: nat, k: nat, m: nat, d: Entry, e: Entry, chunkBytes: nat)
    requires k > 0 && IsEntry(chunks, k, m, d) && IsEntry(chunks, k, m, e) && d != e
    ensures Apart(Pointed(chunks, k, m, d), Pointed(chunks, k, m, e), chunkBytes)
    ensures Inside(Pointed(chunks, k, m, d), StorageChunks(chunks, k, m), chunkBytes)
  {
    hide Apart;
    hide Inside;
    hide Pointed;
    hide StorageChunks;
    EntriesPointApart(chunks, k, m, d, e);
    EntryInStorage(chunks, k, m, d);
    DifferentApart(Pointed(chunks, k, m, d), Pointed(chunks, k, m, e), chunkBytes);
    SmallerInside(Pointed(chunks, k, m, d), StorageChunks(chunks, k, m), chunkBytes);
  }

  /** A stripe is short exactly when it is the last one and k does not divide the number
      of chunks. */
  lemma ShortStripe(chunks: nat, k: nat, s: nat)
    requires k > 0 && s < StripesFor(chunks, k)
    ensures StripeSize(chunks, k, s) < k <==> s + 1 == StripesFor(chunks, k) && chunks % k != 0
  {
    CeilBounds(chunks, k);
    BlockStartInRange(s, k, chunks);
    assert (s + 1) * k == s * k + k;
    if s + 1 < StripesFor(chunks, k) {
      BlockStartInRange(s + 1, k, chunks);
    } else {
      Remainder(chunks, k, s);
    }
  }

  lemma Remainder(chunks: nat, k: nat, s: nat)
    requires k > 0 && s * k < chunks <= (s + 1) * k
    ensures chunks % k != 0 <==> chunks < (s + 1) * k
  {
    var q := if chunks == (s + 1) * k then s + 1 else s;
    assert (q + 1) * k == q * k + k && (s + 1) * k == s * k + k;
    BlockOf(chunks, k, q);
    assert chunks == (chunks / k) * k + chunks % k;
  }

  /** What a short stripe is padded with is chunk 0, the first data block of stripe 0, and
      not a block of zeros. */
  lemma PaddingIsChunkZero(chunks: nat, k: nat, m: nat, s: nat, i: nat)
    requires k > 0 && s < StripesFor(chunks, k) && StripeSize(chunks, k, s) <= i < k
    ensures 0 < StripeSize(chunks, k, 0)
    ensures StripeCall(chunks, k, m, s).data[i] == StripeCall(chunks, k, m, 0).data[0] == Span(0, chunks)[0]
  {
    BlockStartInRange(0, k, chunks);
  }
}
