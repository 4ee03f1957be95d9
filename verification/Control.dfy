/** Control messages, and the run-length coding of missing chunks they carry. */
module Control {
  import opened WordBits
  import opened Geometry

  const BITMAP_CHUNKS: nat := 512

  datatype Kind = CompleteAck | IncompleteNack | SrAck | SrNack | EcAck | EcNack | EcFallbackSr

  datatype Gap = Gap(start: nat, len: nat) {
    function End(): nat {
      start + len
    }
  }

  datatype ControlMessage = ControlMessage(
    kind: Kind, totalChunks: nat, cumulative: nat, words: seq<Word>, gaps: seq<Gap>, firstGap: Gap)
  {
    /** What the message says about chunk c: in the cumulative prefix, or its bit is
        set in one of the eight words a receiver of the message looks at. */
    predicate Claims(c: nat) {
      (cumulative != UINT32_MAX && c <= cumulative) || InWords(c)
    }

    predicate InWords(c: nat) {
      c < BITMAP_CHUNKS && Has(words, c)
    }
  }

  // ---- runs of missing chunks ----

  predicate AllDone(done: seq<bool>, lo: nat, hi: nat) {
    hi <= |done| && forall c :: lo <= c < hi ==> done[c]
  }

  predicate NoneDone(done: seq<bool>, lo: nat, hi: nat) {
    hi <= |done| && forall c :: lo <= c < hi ==> !done[c]
  }

  /** Where a gap list ends. */
  function EndOf(gaps: seq<Gap>): nat {
    if gaps == [] then 0 else gaps[|gaps| - 1].End()
  }

  /** A maximal run of missing chunks, the first one from `from` on. */
  predicate NextRun(done: seq<bool>, from: nat, g: Gap) {
    && g.len > 0
    && from <= g.start && AllDone(done, from, g.start)
    && NoneDone(done, g.start, g.End())
    && (g.End() < |done| ==> done[g.End()])
  }

  /** Each gap is the first maximal run after the gap before it. */
  predicate Runs(gaps: seq<Gap>, done: seq<bool>) {
    gaps == [] ||
    var before := gaps[..|gaps| - 1];
    Runs(before, done) && NextRun(done, EndOf(before), gaps[|gaps| - 1])
  }

  /** Exactly the first maximal runs of missing chunks, in order: all of them, or
      `limit` of them. */
  predicate FirstRuns(gaps: seq<Gap>, done: seq<bool>, limit: nat) {
    && |gaps| <= limit
    && Runs(gaps, done)
    && (|gaps| < limit ==> AllDone(done, EndOf(gaps), |done|))
  }

  /** Nothing else answers that description. */
  lemma RunsUnique(a: seq<Gap>, b: seq<Gap>, done: seq<bool>, limit: nat)
    requires FirstRuns(a, done, limit) && FirstRuns(b, done, limit)
    ensures a == b
  {
    if |a| <= |b| {
      RunsExtend(a, b, done);
    } else {
      RunsExtend(b, a, done);
    }
  }

  lemma {:induction false} RunsExtend(a: seq<Gap>, b: seq<Gap>, done: seq<bool>)
    requires Runs(a, done) && Runs(b, done) && |a| <= |b|
    ensures a <= b
    ensures |a| < |b| ==> !AllDone(done, EndOf(a), |done|)
    decreases |b|
  {
    if b != [] {
      var n := |b| - 1;
      if |a| == |b| {
        RunsExtend(a[..n], b[..n], done);
        NextRunUnique(done, EndOf(a[..n]), a[n], b[n]);
      } else {
        RunsExtend(a, b[..n], done);
        NextRunMissing(done, EndOf(b[..n]), b[n]);
      }
    }
  }

  lemma NextRunMissing(done: seq<bool>, from: nat, g: Gap)
    requires NextRun(done, from, g)
    ensures !AllDone(done, from, |done|)
  {
    assert !done[g.start];
  }

  lemma NextRunUnique(done: seq<bool>, from: nat, a: Gap, b: Gap)
    requires NextRun(done, from, a) && NextRun(done, from, b)
    ensures a == b
  {
    assert !done[a.start] && !done[b.start];
    assert a.start == b.start;
    assert a.End() == b.End();
  }

  // ---- the chunk list a gap list stands for ----

  function Span(lo: nat, hi: nat): seq<nat>
    requires lo <= hi
  {
    seq(hi - lo, i requires 0 <= i < hi - lo => lo + i)
  }

  function Expand(gaps: seq<Gap>): seq<nat> {
    if gaps == [] then [] else
      var g := gaps[|gaps| - 1];
      Expand(gaps[..|gaps| - 1]) + Span(g.start, g.End())
  }

  predicate Ascending(s: seq<nat>) {
    forall i, j :: 0 <= i < j < |s| ==> s[i] < s[j]
  }

  predicate Below(s: seq<nat>, n: nat) {
    forall i :: 0 <= i < |s| ==> s[i] < n
  }

  lemma ExpandAppend(gaps: seq<Gap>, g: Gap)
    ensures Expand(gaps + [g]) == Expand(gaps) + Span(g.start, g.End())
  {
    assert (gaps + [g])[..|gaps|] == gaps;
  }

  /** The missing chunks below n, in order. */
  function Missing(done: seq<bool>, n: nat): seq<nat>
    requires n <= |done|
  {
    if n == 0 then [] else Missing(done, n - 1) + if done[n - 1] then [] else [n - 1]
  }

  lemma {:induction false} MissingDone(done: seq<bool>, lo: nat, hi: nat)
    requires lo <= hi && AllDone(done, lo, hi)
    ensures Missing(done, hi) == Missing(done, lo)
    decreases hi - lo
  {
    if lo < hi {
      MissingDone(done, lo, hi - 1);
    }
  }

  lemma {:induction false} MissingRun(done: seq<bool>, lo: nat, hi: nat)
    requires lo <= hi && NoneDone(done, lo, hi)
    ensures Missing(done, hi) == Missing(done, lo) + Span(lo, hi)
    decreases hi - lo
  {
    if lo < hi {
      MissingRun(done, lo, hi - 1);
      assert Span(lo, hi) == Span(lo, hi - 1) + [hi - 1];
    }
  }

  /** A gap list expands to the missing chunks up to where it ends. */
  lemma {:induction false} ExpandRuns(gaps: seq<Gap>, done: seq<bool>)
    requires Runs(gaps, done)
    ensures EndOf(gaps) <= |done|
    ensures Expand(gaps) == Missing(done, EndOf(gaps))
  {
    if gaps != [] {
      var before, g := gaps[..|gaps| - 1], gaps[|gaps| - 1];
      ExpandRuns(before, done);
      MissingDone(done, EndOf(before), g.start);
      MissingRun(done, g.start, g.End());
    }
  }

  lemma {:induction false} MissingPrefix(done: seq<bool>, lo: nat, hi: nat)
    requires lo <= hi <= |done|
    ensures Missing(done, lo) <= Missing(done, hi)
    decreases hi - lo
  {
    if lo < hi {
      MissingPrefix(done, lo, hi - 1);
    }
  }

  /** Expanding a gap list gives back the missing list, all of it unless the limit was hit. */
  lemma FirstRunsExpand(gaps: seq<Gap>, done: seq<bool>, limit: nat)
    requires FirstRuns(gaps, done, limit)
    ensures Expand(gaps) <= Missing(done, |done|)
    ensures |gaps| < limit ==> Expand(gaps) == Missing(done, |done|)
  {
    ExpandRuns(gaps, done);
    MissingPrefix(done, EndOf(gaps), |done|);
    if |gaps| < limit {
      MissingDone(done, EndOf(gaps), |done|);
    }
  }

  lemma {:induction false} MissingMembers(done: seq<bool>, n: nat, c: nat)
    requires n <= |done|
    ensures c in Missing(done, n) <==> c < n && !done[c]
  {
    if n > 0 {
      MissingMembers(done, n - 1, c);
    }
  }
}
