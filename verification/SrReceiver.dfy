/** The receiver half of Selective Repeat: the control message pump builds while the
    poller keeps setting chunk bits. */
module SrReceiver {
  import opened WordBits
  import opened Geometry
  import opened Control

  const REPORT_WORDS: nat := 8
  const REPORT_GAPS: nat := 4

  /** The chunk bitmap as the reads of one pump find it: view(k)[c] is what the k-th
      read would answer about chunk c. The poller may set bits between any two reads. */
  type View = nat -> seq<bool>

  ghost predicate History(view: View, total: nat) {
    && (forall k :: |view(k)| == total)
    && (forall i: nat, j: nat :: i <= j ==> Grows(view, i, j))
  }

  /** No chunk bit set at read i is clear at read j. */
  ghost predicate Grows(view: View, i: nat, j: nat) {
    |view(i)| == |view(j)| && forall c :: 0 <= c < |view(i)| && view(i)[c] ==> view(j)[c]
  }

  ghost predicate AtRest(view: View) {
    forall k :: view(k) == view(0)
  }

  /** The c-th of the consecutive reads starting at k, about chunk c, answers `complete`. */
  predicate Answer(view: View, k: nat, c: nat) {
    c < |view(k + c)| && view(k + c)[c]
  }

  predicate Swept(view: View, k: nat, c: nat) {
    forall d: nat :: d < c ==> Answer(view, k, d)
  }

  /** A sweep from read `probe` on first misses chunk c, which the very next read finds complete. */
  predicate LostRaceAt(view: View, probe: nat, total: nat, c: nat) {
    c < total && Swept(view, probe, c) && !Answer(view, probe, c) && Answer(view, probe + 1, c)
  }

  ghost predicate LostRace(view: View, probe: nat, total: nat) {
    exists c :: LostRaceAt(view, probe, total, c)
  }

  ghost predicate GapMissing(before: seq<bool>, msg: ControlMessage, c: nat) {
    c < |before| && !before[c] && !msg.Claims(c)
  }

  /** Every claim is true of this bitmap. */
  ghost predicate ClaimsTrue(after: seq<bool>, msg: ControlMessage) {
    && (forall c: nat :: msg.Claims(c) ==> c < |after| && after[c])
    && (msg.kind == CompleteAck ==> AllDone(after, 0, |after|))
  }

  /** Whatever was complete in this bitmap is claimed, as far as the fields reach; gaps are
      in order, were missing, and are not claimed; and a report that does not say complete
      is not owed to a bitmap that was. */
  ghost predicate OwesTo(before: seq<bool>, msg: ControlMessage) {
    && (forall c: nat :: c < |before| && c < 512 && before[c] ==> msg.InWords(c))
    && (forall n: nat :: 0 < n && AllDone(before, 0, n) ==> msg.cumulative != UINT32_MAX && n <= msg.cumulative + 1)
    && Ascending(Expand(msg.gaps))
    && (forall c: nat :: c in Expand(msg.gaps) ==> GapMissing(before, msg, c))
    && (msg.kind != CompleteAck ==> !AllDone(before, 0, |before|))
  }

  /** What a report may say when the bitmap was `before` at the start of the pump and is
      `after` when the report is sent. */
  ghost predicate Honest(before: seq<bool>, after: seq<bool>, msg: ControlMessage) {
    && |before| == |after|
    && msg.kind in {SrAck, SrNack, CompleteAck}
    && msg.totalChunks == |after| % UINT16_VALUES
    && |msg.words| == Min(WordsFor(|after|), 8)
    && (msg.cumulative == UINT32_MAX || msg.cumulative < |after|)
    && |msg.gaps| <= REPORT_GAPS
    && ClaimsTrue(after, msg)
    && OwesTo(before, msg)
  }

  /** The one report possible when nothing changes while it is built. */
  ghost predicate Exact(done: seq<bool>, msg: ControlMessage) {
    && Honest(done, done, msg)
    && FirstRuns(msg.gaps, done, 4)
    && msg.kind == (if AllDone(done, 0, |done|) then CompleteAck else SrNack)
    && (msg.kind == SrNack ==> msg.gaps != [] && msg.firstGap == msg.gaps[0])
  }

  // ---- what pump reads, as functions of the history ----

  /** Read t, about chunk c, answers `complete`. */
  predicate Reads(view: View, t: nat, c: nat) {
    c < |view(t)| && view(t)[c]
  }

  /** Where pass one stops, going on from chunk c. */
  function PrefixRead(view: View, total: nat, c: nat): (prefix: nat)
    requires c <= total
    ensures c <= prefix <= total
    decreases total - c
  {
    if c < total && Reads(view, c, c) then PrefixRead(view, total, c + 1) else c
  }

  /** The number of the first read of pass two. */
  function BitmapAt(view: View, total: nat): nat {
    var prefix := PrefixRead(view, total, 0);
    prefix + if prefix < total then 1 else 0
  }

  /** The number of the first read of pass three. */
  function ProbeAt(view: View, total: nat): nat {
    BitmapAt(view, total) + Min(total, BITMAP_CHUNKS)
  }

  /** The chunk that ends a run read from chunk c on, and the number of the read after it. */
  function RunRead(view: View, total: nat, t: nat, c: nat): (r: (nat, nat))
    requires c <= total
    ensures c <= r.0 <= total && t <= r.1
    decreases total - c
  {
    if c == total then (c, t) else if Reads(view, t, c) then (c, t + 1) else RunRead(view, total, t + 1, c + 1)
  }

  /** The run pass three finds from chunk c on, and the number of the read after it. */
  function ProbeRead(view: View, total: nat, t: nat, c: nat): (r: (Gap, nat))
    requires c <= total
    ensures t <= r.1
    decreases total - c
  {
    if c == total then (Gap(0, 0), t)
    else if Reads(view, t, c) then ProbeRead(view, total, t + 1, c + 1)
    else
      var (stop, u) := RunRead(view, total, t + 1, c);
      (Gap(c, stop - c), u)
  }

  /** The gaps pass four has when it stops, going on from chunk c with those it has, and
      the number of the read after it. */
  function GapsRead(view: View, total: nat, t: nat, c: nat, gaps: seq<Gap>): (r: (seq<Gap>, nat))
    ensures t <= r.1
    decreases total + 1 - c
  {
    if c >= total || |gaps| >= REPORT_GAPS then (gaps, t)
    else if Reads(view, t, c) then GapsRead(view, total, t + 1, c + 1, gaps)
    else
      var (stop, u) := RunRead(view, total, t + 1, c);
      GapsRead(view, total, u, stop + 1, gaps + [Gap(c % UINT16_VALUES, stop - c)])
  }

  function FirstGapRead(view: View, total: nat): Gap {
    ProbeRead(view, total, ProbeAt(view, total), 0).0
  }

  function AllGapsRead(view: View, total: nat): (seq<Gap>, nat) {
    GapsRead(view, total, ProbeRead(view, total, ProbeAt(view, total), 0).1, 0, [])
  }

  /** The number of the first read of the count that follows when pass three found no run. */
  function TallyAt(view: View, total: nat): nat {
    AllGapsRead(view, total).1
  }

  ghost function KindRead(view: View, total: nat): Kind {
    if FirstGapRead(view, total).len > 0 then SrNack
    else if Swept(view, TallyAt(view, total), total) then CompleteAck else SrAck
  }

  /** The number of the read after the last one of the report. */
  ghost function EndAt(view: View, total: nat): nat {
    TallyAt(view, total) + if KindRead(view, total) == SrNack then 0 else total
  }

  /** The report is the one these reads make, field by field. */
  ghost predicate AsRead(view: View, total: nat, msg: ControlMessage) {
    var prefix, first := PrefixRead(view, total, 0), FirstGapRead(view, total);
    && msg.kind == KindRead(view, total)
    && msg.totalChunks == total % UINT16_VALUES
    && msg.cumulative == (if prefix > 0 then prefix - 1 else UINT32_MAX)
    && WordsAsRead(view, total, msg.words)
    && msg.gaps == AllGapsRead(view, total).0
    && msg.firstGap == (if first.len > 0 then first else Gap(0, 0))
  }

  ghost predicate WordsAsRead(view: View, total: nat, words: seq<Word>) {
    && |words| == Min(WordsFor(total), REPORT_WORDS)
    && forall c: nat :: Has(words, c) <==> c < total && c < BITMAP_CHUNKS && Reads(view, BitmapAt(view, total) + c, c)
  }

  // ---- what the four passes found, for the proof that their report is honest ----

  ghost predicate PrefixFound(view: View, total: nat, prefix: nat) {
    && prefix <= total && Swept(view, 0, prefix)
    && (prefix < total ==> !Reads(view, prefix, prefix)) && prefix <= ProbeAt(view, total)
  }

  ghost predicate WordsFound(view: View, total: nat, words: seq<Word>) {
    && (forall c: nat :: Has(words, c) ==> c < total && Reads(view, ProbeAt(view, total), c))
    && (forall c: nat :: c < total && c < BITMAP_CHUNKS && Reads(view, 0, c) ==> Has(words, c))
  }

  ghost predicate ProbeFound(view: View, total: nat, len: nat, firstGap: Gap) {
    var probe := ProbeAt(view, total);
    && (len == 0 ==> Swept(view, probe, total) || LostRace(view, probe, total))
    && (len > 0 ==> !Swept(view, probe, total) && !LostRace(view, probe, total))
    && (Swept(view, probe, total) ==> !LostRace(view, probe, total))
    && len == FirstGapRead(view, total).len
    && (len > 0 && AtRest(view) ==> NextRun(view(0), 0, firstGap))
  }

  ghost predicate GapsFound(view: View, total: nat, gaps: seq<Gap>, gapsFrom: nat) {
    && ProbeAt(view, total) <= gapsFrom <= TallyAt(view, total)
    && GapsSoFar(gaps, view(gapsFrom), total + 2)
    && (AtRest(view) ==> FirstRuns(gaps, view(0), REPORT_GAPS))
  }

  // ---- the passes ----

  /** Pass one: the cumulative prefix, found at the first missing read. */
  method CumulativePass(total: nat, view: View) returns (prefix: nat, t: nat)
    requires History(view, total)
    ensures PrefixFound(view, total, prefix)
    ensures prefix == PrefixRead(view, total, 0) && t == BitmapAt(view, total)
  {
    prefix, t := 0, 0;
    var scanning := true;
    while scanning && prefix < total
      invariant prefix <= total && Swept(view, 0, prefix)
      invariant PrefixRead(view, total, if scanning then prefix else 0) == PrefixRead(view, total, 0)
      invariant !scanning ==> prefix == PrefixRead(view, total, 0)
      invariant scanning ==> t == prefix
      invariant !scanning ==> t == prefix + 1 && prefix < total && !view(prefix)[prefix]
      decreases scanning, total - prefix
    {
      scanning := view(t)[prefix];
      t := t + 1;
      if scanning {
        prefix := prefix + 1;
      }
    }
  }

  /** Pass two: a bitmap of the first 512 chunks. */
  method BitmapPass(total: nat, view: View, t0: nat) returns (words: seq<Word>, t: nat)
    requires History(view, total) && t0 == BitmapAt(view, total)
    ensures t == ProbeAt(view, total)
    ensures WordsAsRead(view, total, words) && WordsFound(view, total, words)
  {
    hide PrefixRead;
    hide BitmapAt;
    var all: seq<Word> := seq(REPORT_WORDS, _ => ZERO_WORD);
    var wordCount := (total + 63) / 64;
    if wordCount > REPORT_WORDS {
      wordCount := REPORT_WORDS;
    }
    t := t0;
    var c := 0;
    while c < total && c < BITMAP_CHUNKS
      invariant 0 <= c <= total && c <= BITMAP_CHUNKS
      invariant t == t0 + c && |all| == REPORT_WORDS
      invariant forall d: nat :: Has(all, d) <==> d < c && Reads(view, t0 + d, d)
      invariant forall d: nat :: Has(all, d) ==> d < c && view(t)[d]
      invariant forall d: nat :: d < c && view(0)[d] ==> Has(all, d)
      decreases total - c
    {
      assert Grows(view, 0, t) && Grows(view, t, t + 1);
      var complete := view(t)[c];
      t := t + 1;
      if complete {
        all := Put(all, c);
      }
      c := c + 1;
    }
    words := all[..wordCount];
    assert forall d: nat :: Has(words, d) <==> Has(all, d);
  }

  /** Pass three: the first run of missing chunks. Each chunk of the run is read again
      by the inner loop, so the run may come out empty. */
  method ProbePass(total: nat, view: View, probe: nat) returns (start: nat, len: nat, t: nat)
    requires History(view, total) && probe == ProbeAt(view, total)
    ensures (Gap(start, len), t) == ProbeRead(view, total, probe, 0)
    ensures ProbeFound(view, total, len, Gap(start, len))
  {
    hide PrefixRead;
    hide ProbeAt;
    start, len, t := 0, 0, probe;
    var c := 0;
    while c < total
      invariant c <= total && t == probe + c && Swept(view, probe, c)
      invariant ProbeRead(view, total, t, c) == ProbeRead(view, total, probe, 0)
    {
      var complete := view(t)[c];
      t := t + 1;
      if !complete {
        assert !Answer(view, probe, c);
        start := c;
        len, t := ProbeRun(total, view, c, t);
        FirstMiss(view, probe, total, start);
        return;
      }
      c := c + 1;
    }
  }

  /** The inner loop of pass three, which reads chunk `from` again. */
  method ProbeRun(total: nat, view: View, from: nat, t0: nat) returns (len: nat, t: nat)
    requires History(view, total) && from < total
    ensures (from + len, t) == RunRead(view, total, t0, from)
    ensures len == 0 <==> Reads(view, t0, from)
    ensures AtRest(view) ==>
      NoneDone(view(0), from, from + len) && (from + len < total ==> view(0)[from + len])
  {
    t, len := t0, 0;
    var c := from;
    var more := true;
    while more && c < total
      invariant c == from + len <= total
      invariant if more then RunRead(view, total, t, c) == RunRead(view, total, t0, from)
                else (c, t) == RunRead(view, total, t0, from)
      invariant len == 0 && more ==> t == t0
      invariant len == 0 && !more ==> Reads(view, t0, from)
      invariant len > 0 ==> !Reads(view, t0, from)
      invariant AtRest(view) ==> NoneDone(view(0), from, c) && (!more ==> c < total && view(0)[c])
      decreases more, total - c
    {
      var again := view(t)[c];
      t := t + 1;
      if again {
        more := false;
      } else {
        len := len + 1;
        c := c + 1;
      }
    }
  }

  lemma FirstMiss(view: View, probe: nat, total: nat, start: nat)
    requires start < total && Swept(view, probe, start) && !Answer(view, probe, start)
    ensures LostRace(view, probe, total) <==> LostRaceAt(view, probe, total, start)
    ensures !Swept(view, probe, total)
    ensures AtRest(view) && |view(0)| == total ==> AllDone(view(0), 0, start)
  {
    if AtRest(view) && |view(0)| == total {
      forall c | 0 <= c < start ensures view(0)[c] {
        assert Answer(view, probe, c);
      }
    }
  }

  /** Gaps recorded so far: in order, below c, and missing when this pass began. */
  ghost predicate GapsSoFar(gaps: seq<Gap>, seen: seq<bool>, c: nat) {
    && |gaps| <= REPORT_GAPS
    && Ascending(Expand(gaps))
    && forall d: nat :: d in Expand(gaps) ==> d < c && d < |seen| && !seen[d]
  }

  /** One run of pass four: from chunk c on, while the reads say missing. */
  method RunFrom(total: nat, view: View, from: nat, t0: nat) returns (len: nat, t: nat)
    requires total < UINT16_VALUES && History(view, total) && from < total
    ensures t0 <= t && (from + len, t) == RunRead(view, total, t0, from)
    ensures NoneDone(view(t0), from, from + len)
    ensures AtRest(view) && !view(0)[from] ==>
      len > 0 && NoneDone(view(0), from, from + len) && (from + len < total ==> view(0)[from + len])
  {
    t, len := t0, 0;
    var c := from;
    var more := true;
    while more && c < total
      invariant c == from + len <= total && t0 <= t
      invariant if more then RunRead(view, total, t, c) == RunRead(view, total, t0, from)
                else (c, t) == RunRead(view, total, t0, from)
      invariant NoneDone(view(t0), from, c)
      invariant AtRest(view) && !more ==> c < total && view(0)[c]
      invariant AtRest(view) ==> NoneDone(view(0), from, c)
      decreases more, total - c
    {
      assert Grows(view, t0, t);
      var again := view(t)[c];
      t := t + 1;
      if again || len >= UINT16_VALUES - 1 {
        more := false;
      } else {
        len := len + 1;
        c := c + 1;
      }
    }
  }

  /** A run of pass four is read and recorded. */
  method RecordGap(total: nat, view: View, gaps: seq<Gap>, c: nat, t: nat, ghost t0: nat)
    returns (more: seq<Gap>, len: nat, u: nat)
    requires total < UINT16_VALUES && History(view, total) && c < total && |gaps| < REPORT_GAPS
    requires t0 < t && !Reads(view, t - 1, c)
    requires GapsSoFar(gaps, view(t0), c)
    requires AtRest(view) ==> RunsSoFar(gaps, view(t0), c)
    ensures t <= u && c + len <= total
    ensures GapsRead(view, total, t - 1, c, gaps) == GapsRead(view, total, u, c + len + 1, more)
    ensures GapsSoFar(more, view(t0), c + len + 1)
    ensures AtRest(view) ==> RunsSoFar(more, view(t0), Min(c + len + 1, total))
  {
    hide GapsRead;
    hide RunRead;
    hide GapsSoFar;
    hide RunsSoFar;
    GapsReadRun(view, total, t - 1, c, gaps);
    len, u := RunFrom(total, view, c, t);
    var gap := Gap(c % UINT16_VALUES, len);
    assert Grows(view, t0, t);
    AppendGap(gaps, gap, view(t0), c);
    if AtRest(view) {
      AppendRun(gaps, gap, view(t0), c);
    }
    more := gaps + [gap];
  }

  /** A chunk that pass four reads as complete. */
  lemma PassOver(total: nat, view: View, gaps: seq<Gap>, c: nat, t: nat, t0: nat)
    requires History(view, total) && c < total && |gaps| < REPORT_GAPS && t0 <= t
    requires GapsSoFar(gaps, view(t0), c) && (AtRest(view) ==> RunsSoFar(gaps, view(t0), c))
    ensures Reads(view, t, c) ==>
      && GapsRead(view, total, t, c, gaps) == GapsRead(view, total, t + 1, c + 1, gaps)
      && GapsSoFar(gaps, view(t0), c + 1) && (AtRest(view) ==> RunsSoFar(gaps, view(t0), c + 1))
  {
    hide RunRead;
  }

  lemma GapsBegin(seen: seq<bool>)
    ensures GapsSoFar([], seen, 0) && RunsSoFar([], seen, 0)
  {
  }

  lemma GapsEnd(gaps: seq<Gap>, seen: seq<bool>, total: nat, c: nat)
    requires |seen| == total && c <= total + 1 && (c >= total || |gaps| >= REPORT_GAPS)
    requires GapsSoFar(gaps, seen, c)
    ensures GapsSoFar(gaps, seen, total + 2)
    ensures RunsSoFar(gaps, seen, Min(c, total)) ==> FirstRuns(gaps, seen, REPORT_GAPS)
  {
  }

  /** Pass four: up to four runs. The step after a run skips the chunk that ended it. */
  method GapPass(total: nat, view: View, t0: nat) returns (gaps: seq<Gap>, t: nat)
    requires total < UINT16_VALUES && History(view, total)
    requires t0 == ProbeRead(view, total, ProbeAt(view, total), 0).1
    ensures (gaps, t) == AllGapsRead(view, total) && GapsFound(view, total, gaps, t0)
  {
    hide ProbeRead;
    hide ProbeAt;
    hide GapsSoFar;
    hide RunsSoFar;
    hide RunRead;
    hide FirstRuns;
    gaps, t := [], t0;
    ghost var seen := view(t0);
    GapsBegin(seen);
    var c := 0;
    while c < total && |gaps| < REPORT_GAPS
      invariant 0 <= c <= total + 1 && t0 <= t && |seen| == total
      invariant GapsRead(view, total, t, c, gaps) == GapsRead(view, total, t0, 0, [])
      invariant GapsSoFar(gaps, seen, c)
      invariant AtRest(view) ==> RunsSoFar(gaps, seen, Min(c, total))
      decreases total + 1 - c
    {
      PassOver(total, view, gaps, c, t, t0);
      var complete := view(t)[c];
      t := t + 1;
      if !complete {
        var len;
        gaps, len, t := RecordGap(total, view, gaps, c, t, t0);
        c := c + len;
      }
      c := c + 1;
    }
    GapsEnd(gaps, seen, total, c);
  }

  lemma GapsReadRun(view: View, total: nat, t: nat, c: nat, gaps: seq<Gap>)
    requires c < total && |gaps| < REPORT_GAPS && !Reads(view, t, c)
    ensures var (stop, u) := RunRead(view, total, t + 1, c);
      GapsRead(view, total, t, c, gaps)
        == GapsRead(view, total, u, stop + 1, gaps + [Gap(c % UINT16_VALUES, stop - c)])
  {
  }

  ghost predicate RunsSoFar(gaps: seq<Gap>, done: seq<bool>, c: nat) {
    EndOf(gaps) <= c <= |done| && Runs(gaps, done) && AllDone(done, EndOf(gaps), c)
  }

  lemma AppendGap(gaps: seq<Gap>, gap: Gap, seen: seq<bool>, c: nat)
    requires GapsSoFar(gaps, seen, c) && |gaps| < REPORT_GAPS
    requires gap.start == c && NoneDone(seen, c, gap.End())
    ensures GapsSoFar(gaps + [gap], seen, gap.End() + 1)
  {
    ExpandAppend(gaps, gap);
    var before, run := Expand(gaps), Span(gap.start, gap.End());
    forall d: nat | d in before + run ensures d <= gap.End() && d < |seen| && !seen[d] {
      assert d in before || d in run;
    }
    forall i | 0 <= i < |before| ensures before[i] < c {
      assert before[i] in before;
    }
  }

  lemma AppendRun(gaps: seq<Gap>, gap: Gap, done: seq<bool>, c: nat)
    requires RunsSoFar(gaps, done, c) && gap.start == c && gap.len > 0
    requires NoneDone(done, c, gap.End()) && (gap.End() < |done| ==> done[gap.End()])
    ensures RunsSoFar(gaps + [gap], done, Min(gap.End() + 1, |done|))
  {
    assert (gaps + [gap])[..|gaps|] == gaps;
  }

  method CountComplete(total: nat, view: View, tally: nat) returns (completed: nat, t: nat)
    requires History(view, total)
    ensures completed <= total && t == tally + total
    ensures completed == total <==> Swept(view, tally, total)
  {
    completed, t := 0, tally;
    var c := 0;
    while c < total
      invariant 0 <= c <= total && t == tally + c && completed <= c
      invariant completed == c <==> Swept(view, tally, c)
    {
      var complete := view(t)[c];
      t := t + 1;
      assert complete <==> Answer(view, tally, c);
      if complete {
        completed := completed + 1;
      }
      c := c + 1;
    }
  }

  lemma SweptDone(view: View, total: nat, k: nat, n: nat, end: nat)
    requires History(view, total) && n <= total && Swept(view, k, n) && k + n <= end
    ensures AllDone(view(end), 0, n)
  {
    forall c: nat | c < n ensures view(end)[c] {
      assert Answer(view, k, c) && Grows(view, k + c, end);
    }
  }

  lemma DoneSwept(view: View, total: nat, k: nat, n: nat)
    requires History(view, total) && n <= total && AllDone(view(0), 0, n)
    ensures Swept(view, k, n)
  {
    forall c: nat | c < n ensures Answer(view, k, c) {
      assert Grows(view, 0, k + c);
    }
  }

  ghost predicate Found(
    view: View, total: nat, msg: ControlMessage, prefix: nat, len: nat, gapsFrom: nat)
  {
    && AsRead(view, total, msg)
    && PrefixFound(view, total, prefix) && msg.cumulative == (if prefix > 0 then prefix - 1 else UINT32_MAX)
    && WordsFound(view, total, msg.words)
    && ProbeFound(view, total, len, msg.firstGap)
    && GapsFound(view, total, msg.gaps, gapsFrom)
  }

  lemma Assembled(
    view: View, total: nat, msg: ControlMessage, prefix: nat, len: nat, firstGap: Gap, gapsFrom: nat)
    requires PrefixFound(view, total, prefix) && prefix == PrefixRead(view, total, 0)
    requires WordsFound(view, total, msg.words) && WordsAsRead(view, total, msg.words)
    requires ProbeFound(view, total, len, firstGap) && firstGap == FirstGapRead(view, total)
    requires GapsFound(view, total, msg.gaps, gapsFrom) && msg.gaps == AllGapsRead(view, total).0
    requires msg.kind == KindRead(view, total) && msg.totalChunks == total % UINT16_VALUES
    requires msg.cumulative == if prefix > 0 then prefix - 1 else UINT32_MAX
    requires len == firstGap.len && msg.firstGap == if len > 0 then firstGap else Gap(0, 0)
    ensures Found(view, total, msg, prefix, len, gapsFrom)
  {
    hide PrefixRead;
    hide PrefixFound;
    hide WordsFound;
    hide WordsAsRead;
    hide GapsFound;
    hide KindRead;
    hide FirstGapRead;
    hide AllGapsRead;
  }

  /** The passes of pump over the chunk bitmap, one read at a time. */
  method ReadReport(total: nat, view: View)
    returns (msg: ControlMessage, end: nat, ghost prefix: nat, ghost len: nat, ghost gapsFrom: nat)
    requires 0 < total < UINT16_VALUES && History(view, total)
    ensures Found(view, total, msg, prefix, len, gapsFrom) && end == EndAt(view, total)
  {
    hide PrefixRead;
    hide BitmapAt;
    hide ProbeAt;
    hide ProbeRead;
    hide PrefixFound;
    hide WordsFound;
    hide WordsAsRead;
    hide ProbeFound;
    hide GapsFound;
    hide GapsRead;
    hide Swept;
    hide Found;
    var cumulativeIdx, t := CumulativePass(total, view);
    PrefixFits(view, total, cumulativeIdx);
    var cumulative := if cumulativeIdx > 0 then cumulativeIdx - 1 else UINT32_MAX;
    var words;
    words, t := BitmapPass(total, view, t);
    var start, missing;
    start, missing, t := ProbePass(total, view, t);
    gapsFrom := t;
    var gaps;
    gaps, t := GapPass(total, view, t);
    var kind;
    if missing > 0 {
      kind := SrNack;
    } else {
      var completed;
      completed, t := CountComplete(total, view, t);
      kind := if completed >= total then CompleteAck else SrAck;
    }
    end, prefix, len := t, cumulativeIdx, missing;
    msg := ControlMessage(kind, total % UINT16_VALUES, cumulative, words, gaps,
                          if missing > 0 then Gap(start, missing) else Gap(0, 0));
    Assembled(view, total, msg, prefix, len, Gap(start, missing), gapsFrom);
  }

  lemma PrefixFits(view: View, total: nat, prefix: nat)
    requires PrefixFound(view, total, prefix)
    ensures prefix <= total
  {
  }

  lemma FoundIsHonest(view: View, total: nat, msg: ControlMessage, prefix: nat, len: nat, gapsFrom: nat)
    requires 0 < total < UINT16_VALUES && History(view, total) && Found(view, total, msg, prefix, len, gapsFrom)
    ensures Honest(view(0), view(EndAt(view, total)), msg)
  {
    hide PrefixRead;
    hide ProbeRead;
    hide RunRead;
    hide GapsRead;
    hide LostRace;
    var probe, tally, end := ProbeAt(view, total), TallyAt(view, total), EndAt(view, total);
    ClaimsHold(view, total, msg, prefix, probe);
    GapsHold(view, msg, probe, gapsFrom);
    VerdictHolds(view, total, msg, len, probe, tally, end);
    assert Grows(view, probe, end);
  }

  lemma FoundIsExact(view: View, total: nat, msg: ControlMessage, prefix: nat, len: nat, gapsFrom: nat)
    requires 0 < total < UINT16_VALUES && History(view, total) && Found(view, total, msg, prefix, len, gapsFrom)
    requires AtRest(view) && Honest(view(0), view(EndAt(view, total)), msg)
    ensures Exact(view(0), msg)
  {
    hide PrefixRead;
    hide ProbeRead;
    hide RunRead;
    hide GapsRead;
    hide GapsSoFar;
    hide Honest;
    var probe, tally, end := ProbeAt(view, total), TallyAt(view, total), EndAt(view, total);
    RestingProbe(view, total, probe);
    VerdictHolds(view, total, msg, len, probe, tally, end);
    assert view(end) == view(0);
    RestingGaps(view(0), msg.gaps, msg.firstGap, len);
  }

  lemma FoundDecides(view: View, total: nat, msg: ControlMessage, prefix: nat, len: nat, gapsFrom: nat)
    requires 0 < total < UINT16_VALUES && History(view, total) && Found(view, total, msg, prefix, len, gapsFrom)
    ensures KindDecided(view, total)
  {
    hide PrefixRead;
    hide ProbeRead;
    hide RunRead;
    hide GapsRead;
    hide LostRace;
    hide GapsSoFar;
    VerdictHolds(view, total, msg, len, ProbeAt(view, total), TallyAt(view, total), EndAt(view, total));
    if Swept(view, ProbeAt(view, total), total) {
      SweptLater(view, total, ProbeAt(view, total), TallyAt(view, total), total);
    }
  }

  /** The report and the read it ends with are determined by the history. Whatever the
      poller does in between, the report is honest; undisturbed, it is exact. */
  method BuildReport(total: nat, view: View) returns (msg: ControlMessage, end: nat)
    requires 0 < total < UINT16_VALUES && History(view, total)
    ensures AsRead(view, total, msg) && end == EndAt(view, total)
    ensures Honest(view(0), view(end), msg)
    ensures AtRest(view) ==> Exact(view(0), msg)
    ensures KindDecided(view, total)
  {
    hide Honest;
    hide Exact;
    hide KindDecided;
    hide EndAt;
    ghost var prefix, len, gapsFrom;
    msg, end, prefix, len, gapsFrom := ReadReport(total, view);
    FoundIsHonest(view, total, msg, prefix, len, gapsFrom);
    FoundDecides(view, total, msg, prefix, len, gapsFrom);
    if AtRest(view) {
      FoundIsExact(view, total, msg, prefix, len, gapsFrom);
    }
    FoundAsRead(view, total, msg, prefix, len, gapsFrom);
  }

  lemma FoundAsRead(view: View, total: nat, msg: ControlMessage, prefix: nat, len: nat, gapsFrom: nat)
    requires Found(view, total, msg, prefix, len, gapsFrom)
    ensures AsRead(view, total, msg)
  {
    hide AsRead;
  }

  /** Which report is sent: a COMPLETE_ACK when the count finds every chunk, an SR_ACK when
      pass three lost its race and the count falls short, and an SR_NACK otherwise. */
  ghost predicate KindDecided(view: View, total: nat) {
    var lost, counted := LostRace(view, ProbeAt(view, total), total), Swept(view, TallyAt(view, total), total);
    && (KindRead(view, total) == SrAck <==> lost && !counted)
    && (KindRead(view, total) == CompleteAck <==> (lost || Swept(view, ProbeAt(view, total), total)) && counted)
    && (KindRead(view, total) == SrNack <==> !lost && !Swept(view, ProbeAt(view, total), total))
  }

  lemma ClaimsHold(view: View, total: nat, msg: ControlMessage, prefix: nat, probe: nat)
    requires History(view, total) && total < UINT16_VALUES
    requires prefix <= total && Swept(view, 0, prefix) && prefix <= probe
    requires prefix < total ==> !Reads(view, prefix, prefix)
    requires msg.cumulative == if prefix > 0 then prefix - 1 else UINT32_MAX
    requires forall c: nat :: Has(msg.words, c) ==> c < total && Reads(view, probe, c)
    ensures forall c: nat :: msg.Claims(c) ==> c < total && view(probe)[c]
    ensures forall n: nat :: 0 < n && AllDone(view(0), 0, n) ==> msg.cumulative != UINT32_MAX && n <= msg.cumulative + 1
  {
    SweptDone(view, total, 0, prefix, probe);
    forall n: nat | 0 < n && AllDone(view(0), 0, n) ensures n <= prefix {
      assert Grows(view, 0, prefix);
    }
  }

  lemma GapsHold(view: View, msg: ControlMessage, probe: nat, gapsFrom: nat)
    requires History(view, |view(0)|) && probe <= gapsFrom
    requires forall c: nat :: msg.Claims(c) ==> c < |view(probe)| && view(probe)[c]
    requires GapsSoFar(msg.gaps, view(gapsFrom), |view(0)| + 2)
    ensures forall c: nat :: c in Expand(msg.gaps) ==> GapMissing(view(0), msg, c)
  {
    assert Grows(view, 0, gapsFrom) && Grows(view, probe, gapsFrom);
  }

  lemma SweptLater(view: View, total: nat, k: nat, later: nat, n: nat)
    requires History(view, total) && k <= later && Swept(view, k, n)
    ensures Swept(view, later, n)
  {
    forall c: nat | c < n ensures Answer(view, later, c) {
      assert Answer(view, k, c) && Grows(view, k + c, later + c);
    }
  }

  lemma VerdictHolds(view: View, total: nat, msg: ControlMessage, len: nat, probe: nat, tally: nat, end: nat)
    requires History(view, total) && probe <= tally
    requires len == 0 ==> Swept(view, probe, total) || LostRace(view, probe, total)
    requires len > 0 ==> !Swept(view, probe, total) && !LostRace(view, probe, total)
    requires Swept(view, probe, total) ==> !LostRace(view, probe, total)
    requires msg.kind == if len > 0 then SrNack else if Swept(view, tally, total) then CompleteAck else SrAck
    requires len == 0 ==> tally + total <= end
    ensures msg.kind == CompleteAck ==> AllDone(view(end), 0, total)
    ensures msg.kind != CompleteAck ==> !AllDone(view(0), 0, total)
    ensures msg.kind == SrAck <==> LostRace(view, probe, total) && !Swept(view, tally, total)
  {
    if Swept(view, probe, total) {
      SweptLater(view, total, probe, tally, total);
    }
    if msg.kind == CompleteAck {
      SweptDone(view, total, tally, total, end);
    } else if AllDone(view(0), 0, total) {
      DoneSwept(view, total, probe, total);
      DoneSwept(view, total, tally, total);
      assert false;
    }
  }

  /** Undisturbed, pass three cannot lose its race. */
  lemma RestingProbe(view: View, total: nat, probe: nat)
    requires History(view, total) && AtRest(view)
    ensures !LostRace(view, probe, total)
    ensures Swept(view, probe, total) ==> AllDone(view(0), 0, total)
  {
    forall c ensures !LostRaceAt(view, probe, total, c) {
    }
    if Swept(view, probe, total) {
      SweptDone(view, total, probe, total, probe + total);
    }
  }

  lemma RestingGaps(done: seq<bool>, gaps: seq<Gap>, first: Gap, len: nat)
    requires FirstRuns(gaps, done, REPORT_GAPS)
    requires len > 0 ==> NextRun(done, 0, first)
    requires len == 0 ==> AllDone(done, 0, |done|)
    ensures len > 0 ==> gaps != [] && gaps[0] == first
  {
    if len > 0 {
      NextRunMissing(done, 0, first);
      assert Runs([first], done) by { assert [first][..0] == []; }
      RunsExtend([first], gaps, done);
    }
  }

  /** The reports of one receiver: its counters and what it handed to the control connection. */
  class SRReceiver {
    const totalChunks: nat
    var acksSent: nat
    var nacksSent: nat
    var sent: seq<ControlMessage>

    constructor (totalChunks: nat)
      ensures this.totalChunks == totalChunks && acksSent == 0 && nacksSent == 0 && sent == []
    {
      this.totalChunks := totalChunks;
      acksSent, nacksSent, sent := 0, 0, [];
    }

    /** A call that comes too early sends nothing. Any other sends one honest report. After
        a COMPLETE_ACK it answers yes; after any other report a second count of the chunks
        decides. Either way yes means that every chunk is complete. */
    method Pump(due: bool, view: View) returns (done: bool, end: nat)
      requires 0 < totalChunks < UINT16_VALUES && History(view, totalChunks)
      modifies this
      ensures !due ==> !done && sent == old(sent) && acksSent == old(acksSent) && nacksSent == old(nacksSent)
      ensures due ==>
        && |sent| == |old(sent)| + 1 && old(sent) <= sent
        && AsRead(view, totalChunks, sent[|sent| - 1])
        && Honest(view(0), view(end), sent[|sent| - 1])
        && (AtRest(view) ==> Exact(view(0), sent[|sent| - 1]) && (done <==> AllDone(view(0), 0, totalChunks)))
        && acksSent + nacksSent == old(acksSent) + old(nacksSent) + 1
        && (nacksSent > old(nacksSent) <==> sent[|sent| - 1].kind == SrNack)
      ensures due && sent[|sent| - 1].kind == CompleteAck ==> done && end == EndAt(view, totalChunks)
      ensures due && sent[|sent| - 1].kind != CompleteAck ==>
        && end == EndAt(view, totalChunks) + totalChunks
        && (done <==> Swept(view, EndAt(view, totalChunks), totalChunks))
      ensures done ==> AllDone(view(end), 0, totalChunks)
    {
      if !due {
        return false, 0;
      }
      var msg;
      msg, end := BuildReport(totalChunks, view);
      sent := sent + [msg];
      if msg.kind == SrNack {
        nacksSent := nacksSent + 1;
      } else {
        acksSent := acksSent + 1;
        if msg.kind == CompleteAck {
          return true, end;
        }
      }
      var reported, completed := end, 0;
      completed, end := CountComplete(totalChunks, view, reported);
      done := completed >= totalChunks;
      SentStaysTrue(view, totalChunks, reported, end, msg);
      if Swept(view, reported, totalChunks) {
        SweptDone(view, totalChunks, reported, totalChunks, end);
      }
      if AllDone(view(0), 0, totalChunks) {
        DoneSwept(view, totalChunks, reported, totalChunks);
      }
    }
  }

  /** A report honest about a later moment is honest about an earlier one too. */
  lemma HonestEarlier(before: seq<bool>, later: seq<bool>, after: seq<bool>, msg: ControlMessage)
    requires Honest(later, after, msg) && |before| == |later|
    requires forall c :: 0 <= c < |before| && before[c] ==> later[c]
    ensures Honest(before, after, msg)
  {
    hide ClaimsTrue;
    OwesEarlier(before, later, msg);
  }

  lemma OwesEarlier(before: seq<bool>, later: seq<bool>, msg: ControlMessage)
    requires OwesTo(later, msg) && |before| == |later|
    requires forall c :: 0 <= c < |before| && before[c] ==> later[c]
    ensures OwesTo(before, msg)
  {
    forall c: nat | c < |before| && c < BITMAP_CHUNKS && before[c] ensures msg.InWords(c) {
      assert later[c];
    }
    forall n: nat | 0 < n && AllDone(before, 0, n) ensures msg.cumulative != UINT32_MAX && n <= msg.cumulative + 1 {
      assert AllDone(later, 0, n);
    }
    forall c: nat | c in Expand(msg.gaps) ensures GapMissing(before, msg, c) {
      assert GapMissing(later, msg, c);
    }
    if AllDone(before, 0, |before|) {
      assert AllDone(later, 0, |later|);
    }
  }

  /** One true when it is sent stays true. */
  lemma HonestLater(before: seq<bool>, after: seq<bool>, later: seq<bool>, msg: ControlMessage)
    requires Honest(before, after, msg) && |after| == |later|
    requires forall c :: 0 <= c < |after| && after[c] ==> later[c]
    ensures Honest(before, later, msg)
  {
    hide OwesTo;
    ClaimsStayTrue(after, later, msg);
  }

  lemma ClaimsStayTrue(after: seq<bool>, later: seq<bool>, msg: ControlMessage)
    requires ClaimsTrue(after, msg) && |after| == |later|
    requires forall c :: 0 <= c < |after| && after[c] ==> later[c]
    ensures ClaimsTrue(later, msg)
  {
    forall c: nat | msg.Claims(c) ensures c < |later| && later[c] {
      assert after[c];
    }
  }

  /** What a report claims stays true for as long as anyone reads the bitmap. */
  lemma SentStaysTrue(view: View, total: nat, sentAt: nat, later: nat, msg: ControlMessage)
    requires History(view, total) && sentAt <= later && Honest(view(0), view(sentAt), msg)
    ensures Honest(view(0), view(later), msg)
  {
    assert Grows(view, sentAt, later);
    HonestLater(view(0), view(sentAt), view(later), msg);
  }

  /** The SR_ACK branch is taken in some history exactly when there is more than one chunk:
      when the first one is set just after pass three has read it as missing, and another
      one stays missing. */
  lemma SrAckPossible(total: nat)
    requires 0 < total < UINT16_VALUES
    ensures (exists view: View :: History(view, total) && KindRead(view, total) == SrAck) <==> total > 1
  {
    if total > 1 {
      var view := SrAckHappens(total);
    } else {
      forall view: View | History(view, total) ensures KindRead(view, total) != SrAck {
        LoneChunk(view);
      }
    }
  }

  lemma SrAckHappens(total: nat) returns (view: View)
    requires 1 < total < UINT16_VALUES
    ensures History(view, total)
    ensures LostRaceAt(view, ProbeAt(view, total), total, 0) && !Swept(view, TallyAt(view, total), total)
    ensures KindRead(view, total) == SrAck
  {
    var probe := 1 + Min(total, BITMAP_CHUNKS);
    view := t => seq(total, c => c == 0 && t > probe);
    forall i: nat, j: nat | i <= j ensures Grows(view, i, j) {
    }
    assert !Reads(view, 0, 0);
    assert ProbeAt(view, total) == probe;
    assert !Reads(view, probe, 0) && Reads(view, probe + 1, 0);
    assert RunRead(view, total, probe + 1, 0) == (0, probe + 2);
    assert FirstGapRead(view, total) == Gap(0, 0);
    assert !Answer(view, TallyAt(view, total), 1);
  }

  /** With a single chunk, losing the race means that the chunk is complete. */
  lemma LoneChunk(view: View)
    requires History(view, 1)
    ensures KindRead(view, 1) != SrAck
  {
    var probe, tally := ProbeAt(view, 1), TallyAt(view, 1);
    if FirstGapRead(view, 1).len == 0 {
      assert RunRead(view, 1, probe + 1, 0) == if Reads(view, probe + 1, 0) then (0, probe + 2) else (1, probe + 2);
      assert Reads(view, probe, 0) || Reads(view, probe + 1, 0);
      assert probe + 1 <= tally;
      assert Grows(view, probe, tally) && Grows(view, probe + 1, tally);
    }
  }
}
