/** Erasure-coding control: when the receiver asks, gives up asking, and acknowledges, and
    what the sender makes of it. Decoding itself is a yes or no from outside. */
module Ec {
  import opened WordBits
  import opened Geometry
  import opened Control
  import opened RestReport

  const EC_GAPS: nat := 16
  const EC_BITMAP_CHUNKS: nat := 1024
  const EC_MISSING_LIMIT: nat := 8

  datatype Config = Config(m: nat, dataChunks: nat, maxRetries: nat, hasServer: bool)

  datatype Receiver = Receiver(
    attempts: nat, fallback: bool, successes: nat, fallbacks: nat, completed: bool, sent: seq<ControlMessage>)

  function Note(kind: Kind, gaps: seq<Gap>): ControlMessage {
    ControlMessage(kind, 0, 0, [], gaps, Gap(0, 0))
  }

  function Lost(seen: seq<bool>): nat {
    |Missing(seen, |seen|)|
  }

  /** The first runs of missing data chunks, as many as the message has room for. */
  function FirstGaps(seen: seq<bool>): (gaps: seq<Gap>)
    ensures FirstRuns(gaps, seen, EC_GAPS)
  {
    MoreRuns(seen, [], EC_GAPS)
  }

  function Acknowledged(cfg: Config, r: Receiver): Receiver {
    r.(successes := r.successes + 1, completed := true,
       sent := if cfg.hasServer then r.sent + [Note(EcAck, [])] else r.sent)
  }

  function Ask(cfg: Config, r: Receiver, seen: seq<bool>): Receiver {
    if !cfg.hasServer then r.(attempts := r.attempts + 1)
    else
      var last := r.attempts + 1 >= cfg.maxRetries;
      r.(attempts := r.attempts + 1, fallback := last, fallbacks := r.fallbacks + if last then 1 else 0,
         sent := r.sent + [Note(if last then EcFallbackSr else EcNack, FirstGaps(seen))])
  }

  /** try_decode: the receiver afterwards, and what it returns. `seen` is what it read of the
      data chunks, one after the other; `decoded` says whether the library would succeed. */
  function Try(cfg: Config, r: Receiver, seen: seq<bool>, decoded: bool): (Receiver, bool) {
    if Lost(seen) == 0 then (Acknowledged(cfg, r).(fallback := false), true)
    else if r.fallback then (r, false)
    else if Lost(seen) > cfg.m then (Ask(cfg, r, seen), false)
    else if decoded then (Acknowledged(cfg, r), true)
    else (r.(fallbacks := r.fallbacks + 1), false)
  }

  // ---- collapsing the missing list into gaps ----

  lemma {:induction false} MissingSame(done: seq<bool>, lo: nat, hi: nat)
    requires lo <= hi <= |done| && |Missing(done, hi)| == |Missing(done, lo)|
    ensures AllDone(done, lo, hi)
    decreases hi - lo
  {
    if lo < hi {
      MissingPrefix(done, lo, hi - 1);
      MissingSame(done, lo, hi - 1);
    }
  }

  /** Where the missing list goes on after the chunks below `from`. */
  lemma {:induction false} NextInList(done: seq<bool>, from: nat, n: nat)
    requires from <= n <= |done| && |Missing(done, from)| < |Missing(done, n)|
    ensures var start := Missing(done, n)[|Missing(done, from)|];
      && from <= start < n && AllDone(done, from, start) && !done[start]
      && |Missing(done, start)| == |Missing(done, from)|
    decreases n - from
  {
    if n > 0 {
      MissingPrefix(done, from, n - 1);
      if |Missing(done, from)| < |Missing(done, n - 1)| {
        NextInList(done, from, n - 1);
      } else {
        MissingSame(done, from, n - 1);
      }
    }
  }

  /** Whether the run that has reached `at` goes on is what the list says next. */
  lemma RunGoesOn(done: seq<bool>, missing: seq<nat>, at: nat, next: nat)
    requires missing == Missing(done, |done|) && at <= |done| && |Missing(done, at)| == next <= |missing|
    ensures next < |missing| && missing[next] == at ==>
      at < |done| && !done[at] && |Missing(done, at + 1)| == next + 1
    ensures !(next < |missing| && missing[next] == at) && at < |done| ==> done[at]
  {
    if next < |missing| {
      NextInList(done, at, |done|);
    } else {
      MissingSame(done, at, |done|);
    }
  }

  lemma MissingOne(done: seq<bool>, c: nat)
    requires c < |done| && !done[c]
    ensures |Missing(done, c + 1)| == |Missing(done, c)| + 1
  {
  }

  method MissingList(seen: seq<bool>) returns (missing: seq<nat>)
    ensures missing == Missing(seen, |seen|)
  {
    missing := [];
    for c := 0 to |seen|
      invariant missing == Missing(seen, c)
    {
      if !seen[c] {
        missing := missing + [c];
      }
    }
  }

  /** The run that starts at missing[idx]. */
  method RunLength(ghost seen: seq<bool>, missing: seq<nat>, idx: nat) returns (len: nat, next: nat)
    requires missing == Missing(seen, |seen|) && idx < |missing|
    requires missing[idx] < |seen| && !seen[missing[idx]] && |Missing(seen, missing[idx])| == idx
    ensures len > 0 && missing[idx] + len <= |seen| && idx < next <= |missing|
    ensures NoneDone(seen, missing[idx], missing[idx] + len)
    ensures |Missing(seen, missing[idx] + len)| == next
    ensures missing[idx] + len < |seen| ==> seen[missing[idx] + len]
  {
    hide Missing;
    MissingOne(seen, missing[idx]);
    var start := missing[idx];
    len := 1;
    next := idx + 1;
    while next < |missing| && missing[next] == start + len
      invariant 0 < len && start + len <= |seen| && idx < next <= |missing|
      invariant NoneDone(seen, start, start + len)
      invariant |Missing(seen, start + len)| == next
      decreases |missing| - next
    {
      RunGoesOn(seen, missing, start + len, next);
      len := len + 1;
      next := next + 1;
    }
    RunGoesOn(seen, missing, start + len, next);
  }

  lemma NoRuns(done: seq<bool>)
    ensures Runs([], done) && EndOf([]) == 0 && Missing(done, 0) == []
  {
  }

  lemma OneMoreRun(gaps: seq<Gap>, gap: Gap, done: seq<bool>)
    requires Runs(gaps, done) && NextRun(done, EndOf(gaps), gap)
    ensures Runs(gaps + [gap], done) && EndOf(gaps + [gap]) == gap.End()
  {
    assert (gaps + [gap])[..|gaps|] == gaps;
  }

  /** The collapse loop, 16-bit casts included, yields exactly the first maximal runs. */
  method CollapseGaps(ghost seen: seq<bool>, missing: seq<nat>) returns (gaps: seq<Gap>)
    requires missing == Missing(seen, |seen|) && |seen| < UINT16_VALUES
    ensures FirstRuns(gaps, seen, EC_GAPS)
  {
    hide Missing;
    hide Runs;
    hide EndOf;
    NoRuns(seen);
    gaps := [];
    var idx := 0;
    while idx < |missing| && |gaps| < EC_GAPS
      invariant idx <= |missing| && |gaps| <= EC_GAPS
      invariant Runs(gaps, seen) && EndOf(gaps) <= |seen| && |Missing(seen, EndOf(gaps))| == idx
      decreases |missing| - idx
    {
      NextInList(seen, EndOf(gaps), |seen|);
      var start := missing[idx];
      var len, next := RunLength(seen, missing, idx);
      var gap := Gap(start % UINT16_VALUES, len % UINT16_VALUES);
      OneMoreRun(gaps, gap, seen);
      gaps := gaps + [gap];
      idx := next;
    }
    if |gaps| < EC_GAPS {
      MissingSame(seen, EndOf(gaps), |seen|);
    }
  }

  // ---- the receiver's object ----

  class ECReceiver {
    const cfg: Config
    var decodeAttempts: nat
    var fallbackActive: bool
    var decodeSuccess: nat
    var fallbackSr: nat
    var completed: bool
    var sent: seq<ControlMessage>

    function State(): Receiver
      reads this
    {
      Receiver(decodeAttempts, fallbackActive, decodeSuccess, fallbackSr, completed, sent)
    }

    constructor (cfg: Config)
      ensures this.cfg == cfg && State() == Receiver(0, false, 0, 0, false, [])
    {
      this.cfg := cfg;
      decodeAttempts, fallbackActive, decodeSuccess, fallbackSr := 0, false, 0, 0;
      completed, sent := false, [];
    }

    method Acknowledge()
      modifies this
      ensures State() == Acknowledged(cfg, old(State()))
    {
      decodeSuccess := decodeSuccess + 1;
      completed := true;
      if cfg.hasServer {
        sent := sent + [Note(EcAck, [])];
      }
    }

    method TryDecode(seen: seq<bool>, decoded: bool) returns (done: bool)
      requires |seen| == cfg.dataChunks < UINT16_VALUES
      modifies this
      ensures (State(), done) == Try(cfg, old(State()), seen, decoded)
    {
      var missing := MissingList(seen);
      if fallbackActive {
        if |missing| == 0 {
          Acknowledge();
          fallbackActive := false;
          return true;
        }
        return false;
      }
      if |missing| == 0 {
        Acknowledge();
        return true;
      }
      if |missing| > cfg.m {
        if cfg.hasServer {
          var gaps := CollapseGaps(seen, missing);
          RunsUnique(gaps, FirstGaps(seen), seen, EC_GAPS);
          var kind := EcNack;
          if decodeAttempts + 1 >= cfg.maxRetries {
            kind := EcFallbackSr;
            fallbackActive := true;
            fallbackSr := fallbackSr + 1;
          }
          sent := sent + [Note(kind, gaps)];
        }
        decodeAttempts := decodeAttempts + 1;
        return false;
      }
      if !decoded {
        fallbackSr := fallbackSr + 1;
        return false;
      }
      Acknowledge();
      return true;
    }
  }

  // ---- whole runs of one receive ----

  datatype Call = Call(seen: seq<bool>, decoded: bool)

  ghost predicate Called(cfg: Config, r: Receiver, call: Call, t: Receiver) {
    |call.seen| == cfg.dataChunks && t == Try(cfg, r, call.seen, call.decoded).0
  }

  /** Chunk bits are never cleared, so a later reading sees at least as much. */
  predicate SeesMore(a: seq<bool>, b: seq<bool>) {
    |a| == |b| && forall c :: 0 <= c < |a| && a[c] ==> b[c]
  }

  ghost predicate Run(cfg: Config, states: seq<Receiver>, calls: seq<Call>) {
    && |states| == |calls| + 1
    && states[0] == Receiver(0, false, 0, 0, false, [])
    && (forall i :: 0 <= i < |calls| ==> Called(cfg, states[i], calls[i], states[i + 1]))
    && (forall i, j :: 0 <= i < j < |calls| ==> SeesMore(calls[i].seen, calls[j].seen))
  }

  /** First a NACKs, then b requests to fall back, then c acknowledgements. */
  predicate Phases(sent: seq<ControlMessage>, a: nat, b: nat, c: nat) {
    && |sent| == a + b + c
    && forall i :: 0 <= i < |sent| ==>
      sent[i].kind == if i < a then EcNack else if i < a + b then EcFallbackSr else EcAck
  }

  /** The last reading left few enough losses for the library; later ones will too. */
  predicate Calm(cfg: Config, calls: seq<Call>, i: nat) {
    0 < i <= |calls| && Lost(calls[i - 1].seen) <= cfg.m
  }

  ghost predicate Shaped(cfg: Config, r: Receiver, calm: bool, a: nat, b: nat, c: nat) {
    && Phases(r.sent, a, b, c)
    && a + b == r.attempts && b <= 1
    && (b == 1 ==> a + 1 == Max(1, cfg.maxRetries))
    && r.attempts <= Max(1, cfg.maxRetries) && (b == 0 ==> r.attempts < Max(1, cfg.maxRetries))
    && (r.fallback ==> b == 1 && c == 0)
    && ((b == 1 && !r.fallback) || c > 0 ==> calm)
  }

  lemma {:induction false} FewerLost(a: seq<bool>, b: seq<bool>, n: nat)
    requires SeesMore(a, b) && n <= |a|
    ensures |Missing(b, n)| <= |Missing(a, n)|
  {
    if n > 0 {
      FewerLost(a, b, n - 1);
    }
  }

  lemma StepShaped(cfg: Config, r: Receiver, seen: seq<bool>, decoded: bool, calm: bool, a: nat, b: nat, c: nat)
    returns (x: nat, y: nat, z: nat)
    requires cfg.hasServer && Shaped(cfg, r, calm, a, b, c) && (calm ==> Lost(seen) <= cfg.m)
    ensures Shaped(cfg, Try(cfg, r, seen, decoded).0, Lost(seen) <= cfg.m, x, y, z)
  {
    x, y, z := a, b, c;
    if Lost(seen) == 0 || (!r.fallback && Lost(seen) <= cfg.m && decoded) {
      z := c + 1;
    } else if !r.fallback && Lost(seen) > cfg.m {
      if r.attempts + 1 >= cfg.maxRetries {
        y := 1;
      } else {
        x := a + 1;
      }
    }
  }

  /** Over a whole receive the messages sent are some EC_NACKs, then at most one
      EC_FALLBACK_SR, then only EC_ACKs; requests number at most max(1, max_retries),
      and it is the last possible one, and no earlier, that asks to fall back. */
  lemma {:induction false} RequestsAreBounded(cfg: Config, states: seq<Receiver>, calls: seq<Call>, i: nat)
    returns (a: nat, b: nat, c: nat)
    requires cfg.hasServer && Run(cfg, states, calls) && i < |states|
    ensures Phases(states[i].sent, a, b, c) && b <= 1
    ensures a + b <= Max(1, cfg.maxRetries) && a < Max(1, cfg.maxRetries)
    ensures b == 1 ==> a + 1 == Max(1, cfg.maxRetries)
    ensures Shaped(cfg, states[i], Calm(cfg, calls, i), a, b, c)
  {
    if i == 0 {
      a, b, c := 0, 0, 0;
    } else {
      a, b, c := RequestsAreBounded(cfg, states, calls, i - 1);
      assert Called(cfg, states[i - 1], calls[i - 1], states[i]);
      var seen := calls[i - 1].seen;
      if Calm(cfg, calls, i - 1) {
        FewerLost(calls[i - 2].seen, seen, |seen|);
      }
      a, b, c := StepShaped(cfg, states[i - 1], seen, calls[i - 1].decoded, Calm(cfg, calls, i - 1), a, b, c);
    }
  }

  predicate FellBack(r: Receiver) {
    exists k :: 0 <= k < |r.sent| && r.sent[k].kind == EcFallbackSr
  }

  /** The flag is up from the request to fall back until everything has arrived. */
  lemma {:induction false} FlagInRuns(cfg: Config, states: seq<Receiver>, calls: seq<Call>, i: nat)
    requires cfg.hasServer && Run(cfg, states, calls) && i < |states|
    ensures states[i].fallback ==> FellBack(states[i])
    ensures FellBack(states[i]) && !states[i].fallback ==> i > 0 && Lost(calls[i - 1].seen) == 0
  {
    hide Missing;
    if i > 0 {
      FlagInRuns(cfg, states, calls, i - 1);
      var r, t, seen := states[i - 1], states[i], calls[i - 1].seen;
      assert Called(cfg, r, calls[i - 1], t);
      if i > 1 {
        FewerLost(calls[i - 2].seen, seen, |seen|);
      }
      if k :| 0 <= k < |r.sent| && r.sent[k].kind == EcFallbackSr {
        assert t.sent[k] == r.sent[k];
      }
      assert t.sent != r.sent ==> |t.sent| == |r.sent| + 1 && t.sent[..|r.sent|] == r.sent;
      if t.fallback && !r.fallback {
        assert t.sent[|r.sent|].kind == EcFallbackSr;
      }
    }
  }

  /** What one call sends, and what it answers, by what it finds: every data chunk; some
      missing after a fallback; more than m missing before one; at most m missing before one. */
  ghost predicate Does(cfg: Config, r: Receiver, call: Call, t: Receiver, done: bool) {
    if AllDone(call.seen, 0, |call.seen|) then
      done && t.sent == r.sent + [Note(EcAck, [])]
    else if FellBack(r) then
      !done && t == r
    else if Lost(call.seen) > cfg.m then
      && !done && |t.sent| == |r.sent| + 1 && r.sent <= t.sent
      && t.sent[|r.sent|].kind == (if |r.sent| + 1 >= cfg.maxRetries then EcFallbackSr else EcNack)
      && FirstRuns(t.sent[|r.sent|].gaps, call.seen, 16)
    else if call.decoded then
      done && t.sent == r.sent + [Note(EcAck, [])]
    else
      !done && t.sent == r.sent
  }

  lemma PhasesFellBack(r: Receiver, a: nat, b: nat, c: nat)
    requires Phases(r.sent, a, b, c)
    ensures FellBack(r) <==> b > 0
  {
    if b > 0 {
      assert r.sent[a].kind == EcFallbackSr;
    }
  }

  /** Every call of a receive with a control server does just that: neither too early nor
      too late a fallback, neither more nor fewer requests. */
  lemma EveryCallDoes(cfg: Config, states: seq<Receiver>, calls: seq<Call>, i: nat)
    requires cfg.hasServer && Run(cfg, states, calls) && i < |calls|
    ensures states[i + 1] == Try(cfg, states[i], calls[i].seen, calls[i].decoded).0
    ensures Does(cfg, states[i], calls[i], states[i + 1], Try(cfg, states[i], calls[i].seen, calls[i].decoded).1)
  {
    hide Missing;
    hide FirstRuns;
    var r, seen := states[i], calls[i].seen;
    assert Called(cfg, r, calls[i], states[i + 1]);
    LostNone(seen);
    FlagInRuns(cfg, states, calls, i);
    var a, b, c := RequestsAreBounded(cfg, states, calls, i);
    if i > 0 {
      FewerLost(calls[i - 1].seen, seen, |seen|);
    }
    PhasesFellBack(r, a, b, c);
    assert !FellBack(r) && Lost(seen) > cfg.m ==> c == 0 && |r.sent| == a == r.attempts;
  }

  /** The answer of a call, with a control server or without, and what it counts. */
  lemma CallCounts(cfg: Config, r: Receiver, call: Call)
    ensures var (t, done) := Try(cfg, r, call.seen, call.decoded);
      && (done <==> Settles(cfg, r, call))
      && t.successes == r.successes + (if done then 1 else 0) && t.completed == (r.completed || done)
      && t.attempts == r.attempts + (if Lost(call.seen) > cfg.m && !r.fallback && !done then 1 else 0)
      && (t.fallback <==> !done && (r.fallback || (cfg.hasServer && t.attempts > r.attempts >= cfg.maxRetries - 1)))
      && t.fallbacks == r.fallbacks
           + if !done && !r.fallback && (t.fallback || Lost(call.seen) <= cfg.m) then 1 else 0
  {
    hide Missing;
    LostNone(call.seen);
  }

  /** Without a control server the same calls send nothing at all. */
  lemma {:induction false} NoServerNoMessage(cfg: Config, states: seq<Receiver>, calls: seq<Call>, i: nat)
    requires !cfg.hasServer && Run(cfg, states, calls) && i < |states|
    ensures states[i].sent == [] && !states[i].fallback
  {
    if i > 0 {
      NoServerNoMessage(cfg, states, calls, i - 1);
      assert Called(cfg, states[i - 1], calls[i - 1], states[i]);
    }
  }

  /** Marked COMPLETED, or an EC_ACK sent. */
  predicate Declared(r: Receiver) {
    r.completed || exists k :: 0 <= k < |r.sent| && r.sent[k].kind == EcAck
  }

  /** A call that finds every data chunk, or, before any fallback, at most m missing ones
      that the library rebuilds. */
  ghost predicate Settles(cfg: Config, r: Receiver, call: Call) {
    AllDone(call.seen, 0, |call.seen|) || LibraryUsed(cfg, r, call)
  }

  predicate LibraryUsed(cfg: Config, r: Receiver, call: Call) {
    !r.fallback && call.decoded && 0 < Lost(call.seen) <= cfg.m
  }

  /** Every EC_ACK was sent by a call that found every data chunk, or by one whose missing
      chunks the library rebuilt, and never while the receiver had fallen back. */
  lemma {:induction false} EveryAckSettled(cfg: Config, states: seq<Receiver>, calls: seq<Call>, i: nat, k: nat)
    returns (j: nat)
    requires Run(cfg, states, calls) && i < |states|
    requires k < |states[i].sent| && states[i].sent[k].kind == EcAck
    ensures j < i && |states[j].sent| == k && Settles(cfg, states[j], calls[j])
  {
    assert i > 0;
    assert Called(cfg, states[i - 1], calls[i - 1], states[i]);
    if k < |states[i - 1].sent| {
      j := EveryAckSettled(cfg, states, calls, i - 1, k);
    } else {
      j := i - 1;
      LostNone(calls[j].seen);
    }
  }

  /** So one that is not owed to the library means that every data chunk has been received,
      and they are still there at every later reading. */
  lemma AckMeansReceived(cfg: Config, states: seq<Receiver>, calls: seq<Call>, i: nat, k: nat, later: nat)
    returns (j: nat)
    requires Run(cfg, states, calls) && i < |states|
    requires k < |states[i].sent| && states[i].sent[k].kind == EcAck
    ensures j < i && |states[j].sent| == k && Settles(cfg, states[j], calls[j])
    ensures !LibraryUsed(cfg, states[j], calls[j]) && j <= later < |calls| ==>
      AllDone(calls[later].seen, 0, cfg.dataChunks)
  {
    j := EveryAckSettled(cfg, states, calls, i, k);
    assert Called(cfg, states[j], calls[j], states[j + 1]);
    if j < later < |calls| {
      assert SeesMore(calls[j].seen, calls[later].seen);
    }
  }

  /** A message is declared complete exactly when some call found it so. */
  lemma {:induction false} CompletedExactly(cfg: Config, states: seq<Receiver>, calls: seq<Call>, i: nat)
    requires Run(cfg, states, calls) && i < |states|
    ensures Declared(states[i]) <==> exists j :: 0 <= j < i && Settles(cfg, states[j], calls[j])
  {
    if i > 0 {
      CompletedExactly(cfg, states, calls, i - 1);
      assert Called(cfg, states[i - 1], calls[i - 1], states[i]);
      var seen := calls[i - 1].seen;
      LostNone(seen);
      DeclaredByCall(cfg, states[i - 1], calls[i - 1]);
    }
  }

  lemma DeclaredByCall(cfg: Config, r: Receiver, call: Call)
    ensures Declared(Try(cfg, r, call.seen, call.decoded).0) <==> Declared(r) || Settles(cfg, r, call)
  {
    LostNone(call.seen);
    var t := Try(cfg, r, call.seen, call.decoded).0;
    if k :| 0 <= k < |r.sent| && r.sent[k].kind == EcAck {
      assert t.sent[k] == r.sent[k];
    }
  }

  lemma LostNone(seen: seq<bool>)
    ensures Lost(seen) == 0 <==> AllDone(seen, 0, |seen|)
  {
    if Lost(seen) == 0 {
      MissingSame(seen, 0, |seen|);
    } else {
      MissingMembers(seen, |seen|, Missing(seen, |seen|)[0]);
    }
  }

  ghost predicate AskedAfter(cfg: Config, msg: ControlMessage, seen: seq<bool>) {
    && Lost(seen) > cfg.m
    && FirstRuns(msg.gaps, seen, 16) && msg.gaps != [] && msg.words == []
  }

  /** Every request carries the first sixteen runs of what one reading found missing. */
  lemma {:induction false} RequestsCarryRuns(
    cfg: Config, states: seq<Receiver>, calls: seq<Call>, i: nat, k: nat
  ) returns (j: nat)
    requires Run(cfg, states, calls) && i < |states|
    requires k < |states[i].sent| && states[i].sent[k].kind in {EcNack, EcFallbackSr}
    ensures j < i && AskedAfter(cfg, states[i].sent[k], calls[j].seen)
  {
    assert i > 0;
    assert Called(cfg, states[i - 1], calls[i - 1], states[i]);
    if k < |states[i - 1].sent| {
      j := RequestsCarryRuns(cfg, states, calls, i - 1, k);
    } else {
      j := i - 1;
      var seen := calls[j].seen;
      if FirstGaps(seen) == [] {
        MissingDone(seen, 0, |seen|);
      }
    }
  }

  // ---- the sender's side ----

  /** How many data chunks encode_and_send lays out, and how many poll counts. */
  function EncodedChunks(dataBytes: nat, length: nat, chunkBytes: nat): nat
    requires chunkBytes > 0
  {
    CeilDiv(if dataBytes != 0 then dataBytes else length, chunkBytes)
  }

  function PolledChunks(dataBytes: nat, chunkBytes: nat): nat
    requires chunkBytes > 0
  {
    CeilDiv(dataBytes, chunkBytes)
  }

  /** They agree exactly when the configuration names the data length. */
  lemma ChunksAgree(dataBytes: nat, length: nat, chunkBytes: nat)
    requires chunkBytes > 0 && length > 0
    ensures PolledChunks(dataBytes, chunkBytes) == EncodedChunks(dataBytes, length, chunkBytes) <==> dataBytes != 0
    ensures PolledChunks(0, chunkBytes) == 0
  {
    CeilBounds(length, chunkBytes);
    CeilBounds(0, chunkBytes);
  }

  /** What poll keeps, and the chunks it has retransmitted, in order. */
  datatype Sender = Sender(acked: seq<bool>, log: seq<nat>)

  function Applied(acked: seq<bool>, words: seq<Word>, chunks: nat): (r: seq<bool>)
    ensures |r| == |acked|
  {
    seq(|acked|, c requires 0 <= c < |acked| => acked[c] || (c < Min(chunks, EC_BITMAP_CHUNKS) && Has(words, c)))
  }

  function Unacked(acked: seq<bool>, lo: nat, hi: nat): seq<nat>
    requires hi <= |acked|
  {
    if lo >= hi then [] else Unacked(acked, lo, hi - 1) + if acked[hi - 1] then [] else [hi - 1]
  }

  function Resent(acked: seq<bool>, gaps: seq<Gap>, chunks: nat): seq<nat>
    requires chunks <= |acked|
  {
    if gaps == [] then [] else
      var g := gaps[|gaps| - 1];
      Resent(acked, gaps[..|gaps| - 1], chunks) + Unacked(acked, g.start, Min(g.End(), chunks))
  }

  /** The chunks whose bits are clear in the message, from the lowest on, at most eight. */
  function Clear(words: seq<Word>, hi: nat): (r: seq<nat>)
    ensures |r| <= EC_MISSING_LIMIT
  {
    if hi == 0 then [] else
      var before := Clear(words, hi - 1);
      if |before| < EC_MISSING_LIMIT && !Has(words, hi - 1) then before + [hi - 1] else before
  }

  function Shown(words: seq<Word>, chunks: nat): nat {
    Min(Min(|words| * WORD_BITS, EC_BITMAP_CHUNKS), chunks)
  }

  /** poll on a request: the sender afterwards, and whether poll returns success. */
  function Answer(s: Sender, msg: ControlMessage, chunks: nat): (Sender, bool)
    requires chunks <= |s.acked|
  {
    var acked := Applied(s.acked, msg.words, chunks);
    (Sender(acked, s.log + Resent(acked, msg.gaps, chunks) + Clear(msg.words, Shown(msg.words, chunks))),
     AllDone(acked, 0, chunks))
  }

  class ECSender {
    const dataChunks: nat
    var chunkAcked: seq<bool>
    var log: seq<nat>

    function State(): Sender
      reads this
    {
      Sender(chunkAcked, log)
    }

    predicate Valid()
      reads this
    {
      dataChunks <= |chunkAcked|
    }

    constructor (dataBytes: nat, length: nat, chunkBytes: nat)
      requires chunkBytes > 0
      ensures dataChunks == PolledChunks(dataBytes, chunkBytes) && Valid() && log == []
      ensures chunkAcked == seq(EncodedChunks(dataBytes, length, chunkBytes), _ => false)
    {
      dataChunks := CeilDiv(dataBytes, chunkBytes);
      chunkAcked := seq(CeilDiv(if dataBytes != 0 then dataBytes else length, chunkBytes), _ => false);
      log := [];
      new;
      CeilBounds(0, chunkBytes);
    }

    method ApplyBitmap(words: seq<Word>)
      requires Valid()
      modifies this`chunkAcked
      ensures Valid() && chunkAcked == Applied(old(chunkAcked), words, dataChunks)
    {
      var c: nat := 0;
      while c < |words| * WORD_BITS && c < EC_BITMAP_CHUNKS && c < dataChunks
        invariant c <= Min(dataChunks, EC_BITMAP_CHUNKS)
        invariant |chunkAcked| == |old(chunkAcked)|
        invariant forall d :: 0 <= d < |chunkAcked| ==>
          chunkAcked[d] == (old(chunkAcked[d]) || (d < c && Has(words, d)))
      {
        TestBit(words[c / WORD_BITS], c % WORD_BITS);
        if And(words[c / WORD_BITS], OneHot(c % WORD_BITS)) != ZERO_WORD {
          chunkAcked := chunkAcked[c := true];
        }
        c := c + 1;
      }
    }

    method ResendGap(g: Gap)
      requires Valid()
      modifies this`log
      ensures log == old(log) + Unacked(chunkAcked, g.start, Min(g.End(), dataChunks))
    {
      var c := g.start;
      while c < g.start + g.len && c < dataChunks
        invariant g.start <= c
        invariant c <= Max(g.start, Min(g.End(), dataChunks))
        invariant log == old(log) + Unacked(chunkAcked, g.start, Min(c, dataChunks))
      {
        if !chunkAcked[c] {
          log := log + [c];
        }
        c := c + 1;
      }
    }

    method ResendClear(words: seq<Word>)
      modifies this`log
      ensures log == old(log) + Clear(words, Shown(words, dataChunks))
    {
      var sent: nat := 0;
      var c: nat := 0;
      while c < |words| * WORD_BITS && c < EC_BITMAP_CHUNKS && c < dataChunks && sent < EC_MISSING_LIMIT
        invariant c <= Shown(words, dataChunks)
        invariant sent == |Clear(words, c)|
        invariant log == old(log) + Clear(words, c)
      {
        TestBit(words[c / WORD_BITS], c % WORD_BITS);
        if And(words[c / WORD_BITS], OneHot(c % WORD_BITS)) == ZERO_WORD {
          log := log + [c];
          sent := sent + 1;
        }
        c := c + 1;
      }
      ClearStops(words, c, Shown(words, dataChunks));
    }

    method ResendGaps(gaps: seq<Gap>)
      requires Valid()
      modifies this`log
      ensures log == old(log) + Resent(chunkAcked, gaps, dataChunks)
    {
      var i := 0;
      while i < |gaps|
        invariant 0 <= i <= |gaps|
        invariant log == old(log) + Resent(chunkAcked, gaps[..i], dataChunks)
      {
        ResendGap(gaps[i]);
        assert gaps[..i + 1][..i] == gaps[..i];
        i := i + 1;
      }
      assert gaps[..i] == gaps;
    }

    method AllAcked() returns (done: bool)
      requires Valid()
      ensures done <==> AllDone(chunkAcked, 0, dataChunks)
    {
      done := true;
      var c := 0;
      while c < dataChunks && done
        invariant 0 <= c <= dataChunks
        invariant done ==> AllDone(chunkAcked, 0, c)
        invariant !done ==> !AllDone(chunkAcked, 0, dataChunks)
      {
        if !chunkAcked[c] {
          done := false;
        }
        c := c + 1;
      }
    }

    method HandleRequest(msg: ControlMessage) returns (done: bool)
      requires Valid()
      modifies this
      ensures Valid() && (State(), done) == Answer(old(State()), msg, dataChunks)
    {
      hide Resent;
      hide Clear;
      hide Applied;
      ApplyBitmap(msg.words);
      ResendGaps(msg.gaps);
      ResendClear(msg.words);
      done := AllAcked();
    }
  }

  // ---- what the sender resends ----

  /** The chunks below `limit` whose bits are clear, or the first eight of them. */
  ghost predicate FirstClear(words: seq<Word>, limit: nat, sent: seq<nat>) {
    && Ascending(sent) && |sent| <= 8
    && (forall c :: c in sent ==> c < limit && !Has(words, c))
    && forall c: nat :: c < limit && !Has(words, c) && c !in sent ==> |sent| == 8 && forall d :: d in sent ==> d < c
  }

  lemma {:induction false} ClearIsFirst(words: seq<Word>, hi: nat)
    ensures FirstClear(words, hi, Clear(words, hi))
  {
    hide FirstClear;
    hide Has;
    if hi > 0 {
      ClearIsFirst(words, hi - 1);
      OneMoreBit(words, hi - 1, Clear(words, hi - 1));
    } else {
      NothingClear(words);
    }
  }

  lemma NothingClear(words: seq<Word>)
    ensures FirstClear(words, 0, [])
  {
  }

  lemma OneMoreBit(words: seq<Word>, c: nat, before: seq<nat>)
    requires FirstClear(words, c, before)
    ensures FirstClear(words, c + 1, if |before| < 8 && !Has(words, c) then before + [c] else before)
  {
    hide Has;
    hide Ascending;
    assert forall d :: d in before ==> d < c;
    OneMore(before, c);
  }

  lemma OneMore(before: seq<nat>, c: nat)
    requires Ascending(before) && forall d :: d in before ==> d < c
    ensures Ascending(before + [c])
    ensures forall d :: d in before + [c] <==> d in before || d == c
  {
    assert forall i :: 0 <= i < |before| ==> before[i] in before;
  }

  lemma {:induction false} UnackedMembers(acked: seq<bool>, lo: nat, hi: nat, c: nat)
    requires hi <= |acked|
    ensures c in Unacked(acked, lo, hi) <==> lo <= c < hi && !acked[c]
  {
    if lo < hi {
      UnackedMembers(acked, lo, hi - 1, c);
    }
  }

  lemma {:induction false} ResentMembers(acked: seq<bool>, gaps: seq<Gap>, chunks: nat, c: nat)
    requires chunks <= |acked|
    ensures c in Resent(acked, gaps, chunks) <==> c in Expand(gaps) && c < chunks && !acked[c]
  {
    if gaps != [] {
      var g := gaps[|gaps| - 1];
      ResentMembers(acked, gaps[..|gaps| - 1], chunks, c);
      UnackedMembers(acked, g.start, Min(g.End(), chunks), c);
      assert c in Span(g.start, g.End()) <==> g.start <= c < g.End() by {
        if g.start <= c < g.End() {
          assert Span(g.start, g.End())[c - g.start] == c;
        }
      }
    }
  }

  /** The chunks of a request's gaps that are in the message and unacked, as often as the
      gaps name them. */
  ghost predicate FromGaps(acked: seq<bool>, gaps: seq<Gap>, chunks: nat, sent: seq<nat>) {
    chunks <= |acked| && forall c: nat :: c in sent <==> c in Expand(gaps) && c < chunks && !acked[c]
  }

  /** Any request at all: bits of the first 1024 chunks are heard, then the unacked chunks of
      the gaps go out, then the first eight chunks whose bits the request shows clear. */
  lemma AnswerSends(s: Sender, msg: ControlMessage, chunks: nat) returns (resent: seq<nat>, clear: seq<nat>)
    requires chunks <= |s.acked|
    ensures var (r, done) := Answer(s, msg, chunks);
      && |r.acked| == |s.acked|
      && (forall c: nat :: c < |s.acked| ==>
            (r.acked[c] <==> s.acked[c] || (c < chunks && c < 1024 && Has(msg.words, c))))
      && r.log == s.log + resent + clear
      && FromGaps(r.acked, msg.gaps, chunks, resent)
      && FirstClear(msg.words, Min(Min(|msg.words| * 64, 1024), chunks), clear)
      && (done <==> forall c: nat :: c < chunks ==> r.acked[c])
  {
    hide Has;
    hide Resent;
    hide Clear;
    hide FirstClear;
    var acked := Applied(s.acked, msg.words, chunks);
    resent, clear := Resent(acked, msg.gaps, chunks), Clear(msg.words, Shown(msg.words, chunks));
    forall c: nat ensures c in resent <==> c in Expand(msg.gaps) && c < chunks && !acked[c] {
      ResentMembers(acked, msg.gaps, chunks, c);
    }
    ClearIsFirst(msg.words, Shown(msg.words, chunks));
  }

  lemma {:induction false} ClearStops(words: seq<Word>, lo: nat, hi: nat)
    requires lo <= hi && (lo == hi || |Clear(words, lo)| == EC_MISSING_LIMIT)
    ensures Clear(words, hi) == Clear(words, lo)
    decreases hi - lo
  {
    if lo < hi {
      ClearStops(words, lo, hi - 1);
    }
  }

  lemma {:induction false} UnackedAll(acked: seq<bool>, lo: nat, hi: nat)
    requires lo <= hi <= |acked| && NoneDone(acked, lo, hi)
    ensures Unacked(acked, lo, hi) == Span(lo, hi)
    decreases hi - lo
  {
    if lo < hi {
      UnackedAll(acked, lo, hi - 1);
      assert Span(lo, hi) == Span(lo, hi - 1) + [hi - 1];
    }
  }

  lemma {:induction false} ResentAll(acked: seq<bool>, gaps: seq<Gap>, seen: seq<bool>)
    requires Runs(gaps, seen) && SeesMore(acked, seen)
    ensures Resent(acked, gaps, |seen|) == Expand(gaps)
  {
    if gaps != [] {
      var g := gaps[|gaps| - 1];
      ResentAll(acked, gaps[..|gaps| - 1], seen);
      UnackedAll(acked, g.start, g.End());
    }
  }

  /** A sender that has acked no more than the receiver saw answers a request by
      retransmitting exactly the chunks of its gaps, in order: all that were missing when
      there were fewer than sixteen runs of them, else the first of them. */
  lemma RequestAnswered(cfg: Config, s: Sender, msg: ControlMessage, seen: seq<bool>)
    requires AskedAfter(cfg, msg, seen) && SeesMore(s.acked, seen)
    ensures Answer(s, msg, |seen|) == (Sender(s.acked, s.log + Expand(msg.gaps)), false)
    ensures Expand(msg.gaps) != [] && Expand(msg.gaps) <= Missing(seen, |seen|)
    ensures |msg.gaps| < EC_GAPS ==> Expand(msg.gaps) == Missing(seen, |seen|)
  {
    NothingShown(s.acked, |seen|);
    ResentAll(s.acked, msg.gaps, seen);
    FirstRunsExpand(msg.gaps, seen, EC_GAPS);
    GapStillMissing(msg.gaps, seen, s.acked);
    var sent := s.log + Expand(msg.gaps);
    assert sent + [] == sent;
  }

  lemma NothingShown(acked: seq<bool>, chunks: nat)
    ensures Applied(acked, [], chunks) == acked && Clear([], Shown([], chunks)) == []
  {
  }

  lemma GapStillMissing(gaps: seq<Gap>, seen: seq<bool>, acked: seq<bool>)
    requires Runs(gaps, seen) && gaps != [] && SeesMore(acked, seen)
    ensures !AllDone(acked, 0, |seen|) && Expand(gaps) != []
  {
    assert !acked[gaps[|gaps| - 1].start];
  }

  /** With data_bytes left out of the configuration, poll counts no chunks: the receiver's
      first request ends it with success, and nothing is retransmitted. With data_bytes
      given, a request never ends it. */
  lemma PollEndsOnRequest(
    cfg: Config, s: Sender, msg: ControlMessage, seen: seq<bool>, dataBytes: nat, length: nat, chunkBytes: nat
  )
    requires chunkBytes > 0 && length > 0 && |seen| == EncodedChunks(dataBytes, length, chunkBytes)
    requires AskedAfter(cfg, msg, seen) && SeesMore(s.acked, seen)
    ensures var chunks := PolledChunks(dataBytes, chunkBytes);
      && chunks <= |s.acked|
      && (Answer(s, msg, chunks).1 <==> dataBytes == 0)
      && (dataBytes == 0 ==> Answer(s, msg, chunks).0.log == s.log)
  {
    ChunksAgree(dataBytes, length, chunkBytes);
    if dataBytes != 0 {
      RequestAnswered(cfg, s, msg, seen);
    } else {
      ResentNone(Applied(s.acked, msg.words, 0), msg.gaps);
    }
  }

  lemma {:induction false} ResentNone(acked: seq<bool>, gaps: seq<Gap>)
    ensures Resent(acked, gaps, 0) == []
  {
    if gaps != [] {
      ResentNone(acked, gaps[..|gaps| - 1]);
    }
  }
}
