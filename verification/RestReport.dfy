/** The report pump sends when nothing changes under it, as a function of the bitmap. */
module RestReport {
  import opened WordBits
  import opened Geometry
  import opened Control
  import opened SrReceiver

  function NextMissing(done: seq<bool>, c: nat): (r: nat)
    requires c <= |done|
    ensures c <= r <= |done| && AllDone(done, c, r) && (r < |done| ==> !done[r])
    decreases |done| - c
  {
    if c == |done| || !done[c] then c else NextMissing(done, c + 1)
  }

  function NextDone(done: seq<bool>, c: nat): (r: nat)
    requires c <= |done|
    ensures c <= r <= |done| && NoneDone(done, c, r) && (r < |done| ==> done[r])
    decreases |done| - c
  {
    if c == |done| || done[c] then c else NextDone(done, c + 1)
  }

  /** Complete a list of runs up to the limit. */
  function MoreRuns(done: seq<bool>, gaps: seq<Gap>, limit: nat): (r: seq<Gap>)
    requires |gaps| <= limit && Runs(gaps, done) && EndOf(gaps) <= |done|
    ensures FirstRuns(r, done, limit)
    decreases limit - |gaps|
  {
    var start := NextMissing(done, EndOf(gaps));
    if |gaps| == limit || start == |done| then gaps
    else
      var g := Gap(start, NextDone(done, start) - start);
      assert (gaps + [g])[..|gaps|] == gaps;
      MoreRuns(done, gaps + [g], limit)
  }

  function Bitmap(done: seq<bool>): (words: seq<Word>)
    ensures |words| == Min(WordsFor(|done|), REPORT_WORDS)
    ensures forall c: nat :: Has(words, c) <==> c < |done| && c < BITMAP_CHUNKS && done[c]
  {
    seq(Min(WordsFor(|done|), REPORT_WORDS), w requires w >= 0 =>
      seq(WORD_BITS, b requires b >= 0 => w * WORD_BITS + b < |done| && done[w * WORD_BITS + b]))
  }

  function Report(done: seq<bool>): (msg: ControlMessage)
    requires 0 < |done| < UINT16_VALUES
    ensures Exact(done, msg)
  {
    var prefix := NextMissing(done, 0);
    var gaps := MoreRuns(done, [], REPORT_GAPS);
    var msg := ControlMessage(
      if prefix == |done| then CompleteAck else SrNack, |done| % UINT16_VALUES,
      if prefix > 0 then prefix - 1 else UINT32_MAX, Bitmap(done), gaps,
      if prefix == |done| then Gap(0, 0) else Gap(prefix, NextDone(done, prefix) - prefix));
    ReportExact(done, msg, prefix);
    msg
  }

  lemma ReportExact(done: seq<bool>, msg: ControlMessage, prefix: nat)
    requires 0 < |done| < UINT16_VALUES
    requires prefix == NextMissing(done, 0)
    requires FirstRuns(msg.gaps, done, REPORT_GAPS) && msg.words == Bitmap(done)
    requires msg.totalChunks == |done| % UINT16_VALUES
    requires msg.cumulative == if prefix > 0 then prefix - 1 else UINT32_MAX
    requires msg.kind == if prefix == |done| then CompleteAck else SrNack
    requires prefix < |done| ==> msg.firstGap == Gap(prefix, NextDone(done, prefix) - prefix)
    ensures Exact(done, msg)
  {
    RunsAscend(msg.gaps, done);
    forall c: nat | c in Expand(msg.gaps) ensures GapMissing(done, msg, c) {
      RunsMissing(msg.gaps, done, c);
    }
    forall n: nat | 0 < n && AllDone(done, 0, n) ensures n <= prefix {
    }
    if prefix < |done| {
      FirstMissingRun(done, msg.gaps, prefix);
    }
  }

  lemma FirstMissingRun(done: seq<bool>, gaps: seq<Gap>, prefix: nat)
    requires FirstRuns(gaps, done, REPORT_GAPS)
    requires prefix == NextMissing(done, 0) < |done|
    ensures gaps != [] && gaps[0] == Gap(prefix, NextDone(done, prefix) - prefix)
  {
    var first := Gap(prefix, NextDone(done, prefix) - prefix);
    assert NextRun(done, 0, first);
    RestingGaps(done, gaps, first, first.len);
  }

  lemma {:induction false} MissingAscends(done: seq<bool>, n: nat)
    requires n <= |done|
    ensures Ascending(Missing(done, n)) && Below(Missing(done, n), n)
  {
    if n > 0 {
      MissingAscends(done, n - 1);
    }
  }

  lemma RunsAscend(gaps: seq<Gap>, done: seq<bool>)
    requires Runs(gaps, done)
    ensures Ascending(Expand(gaps)) && Below(Expand(gaps), |done|)
  {
    ExpandRuns(gaps, done);
    MissingAscends(done, EndOf(gaps));
  }

  lemma RunsMissing(gaps: seq<Gap>, done: seq<bool>, c: nat)
    requires Runs(gaps, done) && c in Expand(gaps)
    ensures c < |done| && !done[c]
  {
    ExpandRuns(gaps, done);
    MissingMembers(done, EndOf(gaps), c);
  }

  /** There is no other exact report: what pump sends at rest is a function of the bitmap. */
  lemma ExactUnique(done: seq<bool>, msg: ControlMessage)
    requires 0 < |done| < UINT16_VALUES && Exact(done, msg)
    ensures var r := Report(done);
      && msg.kind == r.kind && msg.totalChunks == r.totalChunks && msg.cumulative == r.cumulative
      && msg.gaps == r.gaps
      && (forall c: nat :: msg.InWords(c) <==> r.InWords(c))
  {
    var r := Report(done);
    RunsUnique(msg.gaps, r.gaps, done, REPORT_GAPS);
    PrefixUnique(done, msg, r);
    forall c: nat ensures msg.InWords(c) <==> r.InWords(c) {
      assert msg.InWords(c) ==> msg.Claims(c);
    }
  }

  lemma PrefixUnique(done: seq<bool>, a: ControlMessage, b: ControlMessage)
    requires |done| < UINT16_VALUES && Honest(done, done, a) && Honest(done, done, b)
    ensures a.cumulative == b.cumulative
  {
    PrefixLeast(done, a, b);
    PrefixLeast(done, b, a);
  }

  lemma PrefixLeast(done: seq<bool>, a: ControlMessage, b: ControlMessage)
    requires |done| < UINT16_VALUES && Honest(done, done, a) && Honest(done, done, b)
    ensures a.cumulative != UINT32_MAX ==> b.cumulative != UINT32_MAX && a.cumulative <= b.cumulative
  {
    if a.cumulative != UINT32_MAX {
      forall c: nat | c <= a.cumulative ensures done[c] {
        assert a.Claims(c);
      }
      assert AllDone(done, 0, a.cumulative + 1);
    }
  }
}
