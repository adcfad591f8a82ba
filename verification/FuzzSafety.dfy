/** Every step of the fuzzing loop keeps the invariant, so every run does. */
module FuzzSafety {
  import opened KvTypes
  import opened HistorySpec
  import opened HistoryChecker
  import opened FuzzMachine
  import opened FuzzInvariant

  lemma {:induction false} CountNone(flying: seq<bool>)
    ensures CountFlying(flying) == 0 <==> NoneFlying(flying)
    ensures CountFlying(flying) == |flying| <==> AllFlying(flying)
    ensures CountFlying(flying) <= |flying|
  {
    if flying != [] {
      CountNone(flying[..|flying| - 1]);
    }
  }

  lemma {:induction false} CountSet(flying: seq<bool>, c: nat, b: bool)
    requires c < |flying| && flying[c] != b
    ensures CountFlying(flying[c := b]) == CountFlying(flying) + if b then 1 else -1
  {
    var n := |flying| - 1;
    if c == n {
      assert flying[c := b][..n] == flying[..n];
    } else {
      CountSet(flying[..n], c, b);
      assert flying[c := b][..n] == flying[..n][c := b];
    }
  }

  // ---------- the checker's part ----------

  /** `r` is a possible next record of the log. */
  ghost predicate NextRecord(cfg: Config, log: seq<Record>, r: Record) {
    && r.client < |cfg.keys|
    && 0 < r.tsCall < r.tsResp
    && CanGenerate(cfg.keys[r.client], r.call)
    && (forall i :: 0 <= i < |log| ==> log[i].tsResp < r.tsResp && log[i].tsResp != r.tsCall)
    && (forall i :: 0 <= i < |log| && log[i].client == r.client ==> log[i].tsResp < r.tsCall)
  }

  lemma {:induction false} LogExtends(cfg: Config, log: seq<Record>, r: Record)
    requires LogOk(cfg, log) && NextRecord(cfg, log, r)
    ensures LogOk(cfg, log + [r])
  {
    hide CanGenerate;
  }

  /** The next record began after every update that trimming or checking relied on. */
  lemma {:induction false} BeganLate(cfg: Config, h: HistoryState, log: seq<Record>, r: Record)
    requires |h.maxtr| == |cfg.keys| > 0 && MaxtrOk(h.maxtr, log) && NextRecord(cfg, log, r)
    ensures h.maxtr[r.client] < r.tsCall < r.tsResp && MinOf(h.maxtr) < r.tsCall
  {
    LastUpdateBound(log, r.client, r.tsCall);
  }

  lemma {:induction false} EnqueueSpans(spans: map<string, seq<seq<UpdateSpan>>>, log: seq<Record>, bound: nat,
      queue: seq<QueuedSpan>, e: QueuedSpan)
    requires SpansOk(spans, log, bound, queue) && bound <= e.tsCall
    ensures SpansOk(spans, log, bound, queue + [e])
  {
    forall k, c | k in spans && 0 <= c < |spans[k]|
      ensures SafeSuffix(spans[k][c], FullSpans(log, k, c), bound, queue + [e])
    {
      assert SafeSuffix(spans[k][c], FullSpans(log, k, c), bound, queue);
    }
  }

  /** Verdicts already handed out agree with the longer log. */
  lemma {:induction false} OldVerdicts(cfg: Config, log: seq<Record>, verdicts: seq<bool>, bound: nat, r: Record)
    requires LogOk(cfg, log) && VerdictsOk(cfg, log, verdicts) && CheckedOk(log, |verdicts|, bound)
    requires bound <= r.tsCall <= r.tsResp
    ensures VerdictsOk(cfg, log + [r], verdicts)
  {
    forall i | 0 <= i < |verdicts|
      ensures verdicts[i] == Offline(cfg, log + [r], EntryOf((log + [r])[i]))
    {
      StableVerdict(cfg, log, r, EntryOf(log[i]));
    }
  }

  /** Queueing the answer of a read. */
  lemma {:induction false} HistRead(cfg: Config, h: HistoryState, log: seq<Record>, verdicts: seq<bool>, r: Record)
    requires LogOk(cfg, log) && NextRecord(cfg, log, r) && UpdateInfo(r.call) == None
    requires HistOk(cfg, h, log, verdicts, false)
    ensures HistOk(cfg, Enqueue(h, r.tsCall, r.tsResp, r.resp), log + [r], verdicts, false)
  {
    hide LogOk, NextRecord, VerdictsOk, Offline, SpansOk, MinOf;
    BeganLate(cfg, h, log, r);
    EnqueueSpans(h.spans, log, MinOf(h.maxtr), h.queue, EntryOf(r));
    OldVerdicts(cfg, log, verdicts, MinOf(h.maxtr), r);
    ReadHistory(h.spans, h.maxtr, log, MinOf(h.maxtr), h.queue + [EntryOf(r)], r);
  }

  /** A read adds nothing to the update history. */
  lemma {:induction false} ReadHistory(spans: map<string, seq<seq<UpdateSpan>>>, maxtr: seq<nat>, log: seq<Record>,
                                       bound: nat, queue: seq<QueuedSpan>, r: Record)
    requires UpdateInfo(r.call) == None && SpansOk(spans, log, bound, queue) && MaxtrOk(maxtr, log)
    ensures SpansOk(spans, log + [r], bound, queue) && MaxtrOk(maxtr, log + [r])
  {
    forall k, c: nat
      ensures FullSpans(log + [r], k, c) == FullSpans(log, k, c) && LastUpdate(log + [r], c) == LastUpdate(log, c)
    {
      FullAppend(log, r, k, c);
    }
  }

  lemma {:induction false} PushKeepsSafe(kept: seq<UpdateSpan>, full: seq<UpdateSpan>, bound: nat,
      queue: seq<QueuedSpan>, more: seq<UpdateSpan>)
    requires SafeSuffix(kept, full, bound, queue)
    ensures SafeSuffix(kept + more, full + more, bound, queue)
  {
    var a, b := kept + more, full + more;
    assert b[|b| - |a|..] == full[|full| - |kept|..] + more;
  }

  lemma {:induction false} TrimKeepsSafe(pushed: seq<UpdateSpan>, full: seq<UpdateSpan>, bound: nat, bound': nat,
      queue: seq<QueuedSpan>)
    requires SafeSuffix(pushed, full, bound, queue) && Sequential(full) && bound <= bound'
    ensures SafeSuffix(TrimClient(pushed, bound', MinQueued(queue)), full, bound', queue)
  {
    hide TrimClient;
    TrimSafeAndTight(pushed, bound', MinQueued(queue));
    var kept := TrimClient(pushed, bound', MinQueued(queue));
    assert full[|full| - |kept|..] == pushed[|pushed| - |kept|..];
    hide Sequential, MinQueued;
  }

  /** What acknowledging the update `r` of key `key` leaves in one client's deque of `k`. */
  function AckedDeque(cs: seq<UpdateSpan>, r: Record, key: string, k: string, c: nat, minComing: nat, minQueued: nat)
    : seq<UpdateSpan>
  {
    if k == key then TrimClient(cs + if IsUpdate(r, c, k) then [SpanOf(r)] else [], minComing, minQueued) else cs
  }

  ghost predicate Acked(h: HistoryState, spans: map<string, seq<seq<UpdateSpan>>>, r: Record, key: string,
      minComing: nat) {
    && spans.Keys == h.spans.Keys
    && forall k :: k in spans ==>
       && |spans[k]| == |h.spans[k]|
       && forall c :: 0 <= c < |spans[k]| ==>
            spans[k][c] == AckedDeque(h.spans[k][c], r, key, k, c, minComing, MinQueued(h.queue))
  }

  lemma {:induction false} AcknowledgeActs(h: HistoryState, r: Record, u: Update)
    requires Shaped(h) && r.client < |h.maxtr| && u.key in h.spans && UpdateInfo(r.call) == Some(u)
    ensures var h' := Acknowledge(h, r.client, r.tsCall, r.tsResp, u.key, u.value).0;
      h'.maxtr == h.maxtr[r.client := r.tsResp] && Acked(h, h'.spans, r, u.key, MinOf(h'.maxtr))
  {
    var h' := Acknowledge(h, r.client, r.tsCall, r.tsResp, u.key, u.value).0;
    forall k, c | k in h'.spans && 0 <= c < |h'.spans[k]|
      ensures h'.spans[k][c] == AckedDeque(h.spans[k][c], r, u.key, k, c, MinOf(h'.maxtr), MinQueued(h.queue))
    {
      assert h.spans[k][c] + [] == h.spans[k][c];
    }
  }

  lemma {:induction false} FullIsSequential(cfg: Config, log: seq<Record>, k: string, c: nat)
    requires LogOk(cfg, log)
    ensures Sequential(FullSpans(log, k, c))
  {
    FullSequential(log, k, c, if log == [] then 1 else log[|log| - 1].tsResp + 1);
  }

  /** Acknowledging an update keeps every client history safe. */
  lemma {:induction false} AckSpans(h: HistoryState, spans: map<string, seq<seq<UpdateSpan>>>, log: seq<Record>,
      r: Record, u: Update,
                 bound: nat, bound': nat)
    requires UpdateInfo(r.call) == Some(u) && bound <= bound'
    requires Acked(h, spans, r, u.key, bound')
    requires forall k, c: nat :: Sequential(FullSpans(log + [r], k, c))
    requires SpansOk(h.spans, log, bound, h.queue)
    ensures SpansOk(spans, log + [r], bound', h.queue)
  {
    forall k, c | k in spans && 0 <= c < |spans[k]|
      ensures SafeSuffix(spans[k][c], FullSpans(log + [r], k, c), bound', h.queue)
    {
      assert spans[k][c] == AckedDeque(h.spans[k][c], r, u.key, k, c, bound', MinQueued(h.queue));
      AckSuffix(h.spans[k][c], log, r, k, c, bound, bound', h.queue);
      if k != u.key {
        assert h.spans[k][c] + [] == h.spans[k][c];
      }
    }
  }

  lemma {:induction false} AckSuffix(kept: seq<UpdateSpan>, log: seq<Record>, r: Record, k: string, c: nat,
                  bound: nat, bound': nat, queue: seq<QueuedSpan>)
    requires Sequential(FullSpans(log + [r], k, c)) && bound <= bound'
    requires SafeSuffix(kept, FullSpans(log, k, c), bound, queue)
    ensures var full, more := FullSpans(log + [r], k, c), if IsUpdate(r, c, k) then [SpanOf(r)] else [];
      && SafeSuffix(kept + more, full, bound', queue)
      && SafeSuffix(TrimClient(kept + more, bound', MinQueued(queue)), full, bound', queue)
  {
    var more := if IsUpdate(r, c, k) then [SpanOf(r)] else [];
    FullAppend(log, r, k, c);
    PushKeepsSafe(kept, FullSpans(log, k, c), bound, queue, more);
    TrimKeepsSafe(kept + more, FullSpans(log + [r], k, c), bound, bound', queue);
  }

  lemma {:induction false} ShorterQueue(spans: map<string, seq<seq<UpdateSpan>>>, log: seq<Record>, bound: nat,
      queue: seq<QueuedSpan>, n: nat)
    requires SpansOk(spans, log, bound, queue) && n <= |queue|
    ensures SpansOk(spans, log, bound, queue[n..])
  {
    forall k, c | k in spans && 0 <= c < |spans[k]|
      ensures SafeSuffix(spans[k][c], FullSpans(log, k, c), bound, queue[n..])
    {
      assert SafeSuffix(spans[k][c], FullSpans(log, k, c), bound, queue);
    }
  }

  /** The verdicts of one pass over the queue are offline verdicts. */
  lemma {:induction false} NewVerdicts(cfg: Config, spans: map<string, seq<seq<UpdateSpan>>>, log: seq<Record>,
      bound: nat,
                    queue: seq<QueuedSpan>, before: seq<bool>)
    requires spans.Keys == Pool(cfg.keys) && forall k :: k in spans ==> |spans[k]| == |cfg.keys|
    requires SpansOk(spans, log, bound, queue) && QueueOk(queue, log, |before|) && VerdictsOk(cfg, log, before)
    ensures VerdictsOk(cfg, log, before + Drain(queue, spans, bound).1)
  {
    hide Drain, Offline, CallAccepts, SpansOk;
    DrainShape(queue, spans, bound);
    var verdicts := before + Drain(queue, spans, bound).1;
    forall i | 0 <= i < |verdicts|
      ensures verdicts[i] == Offline(cfg, log, EntryOf(log[i]))
    {
      if i >= |before| {
        TrimmedSameVerdict(cfg, spans, log, bound, queue, i - |before|);
      }
    }
  }

  /** The checker's state and verdicts after an update was answered. */
  ghost function Answered(h: HistoryState, r: Record, u: Update): (a: (HistoryState, seq<bool>))
    requires Shaped(h) && r.client < |h.maxtr| && u.key in h.spans
    ensures Shaped(a.0) && |a.0.maxtr| == |h.maxtr| && a.0.spans.Keys == h.spans.Keys
  {
    Acknowledge(Enqueue(h, r.tsCall, r.tsResp, r.resp), r.client, r.tsCall, r.tsResp, u.key, u.value)
  }

  ghost predicate Ready(cfg: Config, h: HistoryState, log: seq<Record>, r: Record, u: Update) {
    && HistShaped(cfg, h) && MaxtrOk(h.maxtr, log) && r.client < |cfg.keys|
    && LogOk(cfg, log) && NextRecord(cfg, log, r) && UpdateInfo(r.call) == Some(u) && u.key in h.spans
  }

  lemma {:induction false} AnsweredSpans(cfg: Config, h: HistoryState, log: seq<Record>, r: Record, u: Update)
    requires Ready(cfg, h, log, r, u)
    requires SpansOk(h.spans, log, MinOf(h.maxtr), h.queue)
    ensures var h' := Answered(h, r, u).0;
      SpansOk(h'.spans, log + [r], MinOf(h'.maxtr), h.queue + [EntryOf(r)])
  {
    var q := Enqueue(h, r.tsCall, r.tsResp, r.resp);
    BeganLate(cfg, h, log, r);
    LogExtends(cfg, log, r);
    EnqueueSpans(h.spans, log, MinOf(h.maxtr), h.queue, EntryOf(r));
    AcknowledgeActs(q, r, u);
    MinMonotone(h.maxtr, r.client, r.tsResp);
    forall k, c: nat
      ensures Sequential(FullSpans(log + [r], k, c))
    {
      FullIsSequential(cfg, log + [r], k, c);
    }
    var h' := Answered(h, r, u).0;
    AckSpans(q, h'.spans, log, r, u, MinOf(h.maxtr), MinOf(h'.maxtr));
  }

  lemma {:induction false} AnsweredMaxtr(cfg: Config, h: HistoryState, log: seq<Record>, r: Record, u: Update)
    requires Ready(cfg, h, log, r, u)
    ensures var h' := Answered(h, r, u).0;
      MaxtrOk(h'.maxtr, log + [r]) && MinOf(h.maxtr) <= MinOf(h'.maxtr)
  {
    BeganLate(cfg, h, log, r);
    MinMonotone(h.maxtr, r.client, r.tsResp);
    var h' := Answered(h, r, u).0;
    forall c | 0 <= c < |h'.maxtr|
      ensures h'.maxtr[c] == LastUpdate(log + [r], c)
    {
      FullAppend(log, r, "", c);
    }
  }

  lemma {:induction false} AnsweredQueue(cfg: Config, h: HistoryState, log: seq<Record>, verdicts: seq<bool>,
      r: Record, u: Update)
    requires Ready(cfg, h, log, r, u)
    requires QueueOk(h.queue, log, |verdicts|) && CheckedOk(log, |verdicts|, MinOf(h.maxtr))
    ensures var (h', vs) := Answered(h, r, u);
      var queue := h.queue + [EntryOf(r)];
      && (h'.queue, vs) == Drain(queue, h'.spans, MinOf(h'.maxtr))
      && |vs| <= |queue| && h'.queue == queue[|vs|..]
      && QueueOk(queue, log + [r], |verdicts|)
      && QueueOk(h'.queue, log + [r], |verdicts + vs|)
      && CheckedOk(log + [r], |verdicts + vs|, MinOf(h'.maxtr))
      && (!(vs != [] && !vs[|vs| - 1]) ==> PendingOk(h'.queue, MinOf(h'.maxtr)))
  {
    hide LogOk, NextRecord, MaxtrOk, Drain;
    var (h', vs) := Answered(h, r, u);
    var queue := h.queue + [EntryOf(r)];
    AnsweredMaxtr(cfg, h, log, r, u);
    LogExtends(cfg, log, r);
    DrainShape(queue, h'.spans, MinOf(h'.maxtr));
    HistFrontier(cfg, queue, log + [r], verdicts, vs, MinOf(h.maxtr), MinOf(h'.maxtr));
  }

  /** Acknowledging an update: trimming, checking and reporting. */
  lemma {:induction false} HistUpdate(cfg: Config, h: HistoryState, log: seq<Record>, verdicts: seq<bool>, r: Record,
      u: Update)
    requires Ready(cfg, h, log, r, u)
    requires HistOk(cfg, h, log, verdicts, false)
    ensures var (h', vs) := Answered(h, r, u);
      HistOk(cfg, h', log + [r], verdicts + vs, vs != [] && !vs[|vs| - 1])
  {
    hide LogOk, NextRecord, MaxtrOk, SpansOk, QueueOk, CheckedOk, VerdictsOk, PendingOk, Drain, Answered, Acknowledge, MinOf,
         FailFast, Pool;
    var (h', vs) := Answered(h, r, u);
    var queue := h.queue + [EntryOf(r)];
    AnsweredMaxtr(cfg, h, log, r, u);
    AnsweredSpans(cfg, h, log, r, u);
    AnsweredQueue(cfg, h, log, verdicts, r, u);
    BeganLate(cfg, h, log, r);
    OldVerdicts(cfg, log, verdicts, MinOf(h.maxtr), r);
    NewVerdicts(cfg, h'.spans, log + [r], MinOf(h'.maxtr), queue, verdicts);
    ShorterQueue(h'.spans, log + [r], MinOf(h'.maxtr), queue, |vs|);
    FailsLast(verdicts, queue, h'.spans, MinOf(h'.maxtr));
  }

  /** Only the last verdict of a pass can be negative. */
  lemma {:induction false} FailsLast(before: seq<bool>, queue: seq<QueuedSpan>, spans: map<string,
      seq<seq<UpdateSpan>>>, bound: nat)
    requires FailFast(before, false)
    ensures var vs := Drain(queue, spans, bound).1; FailFast(before + vs, vs != [] && !vs[|vs| - 1])
  {
    hide Drain, CallAccepts;
    DrainShape(queue, spans, bound);
  }

  lemma {:induction false} HistFrontier(cfg: Config, queue: seq<QueuedSpan>, log: seq<Record>, before: seq<bool>,
      vs: seq<bool>, bound: nat, bound': nat)
    requires LogOk(cfg, log) && QueueOk(queue, log, |before|) && CheckedOk(log, |before|, bound) && bound <= bound'
    requires |vs| <= |queue| && forall i :: 0 <= i < |vs| ==> queue[i].tsResp < bound'
    ensures QueueOk(queue[|vs|..], log, |before + vs|) && CheckedOk(log, |before + vs|, bound')
    ensures |vs| == |queue| || bound' <= queue[|vs|].tsResp ==> PendingOk(queue[|vs|..], bound')
  {
    hide CanGenerate;
    forall i | 0 <= i < |before + vs|
      ensures log[i].tsResp < bound'
    {
      if i >= |before| {
        assert queue[i - |before|] == EntryOf(log[i]);
      }
    }
    if |vs| < |queue| && bound' <= queue[|vs|].tsResp {
      forall i | |vs| <= i < |queue|
        ensures bound' <= queue[i].tsResp
      {
        assert queue[i] == EntryOf(log[|before| + i]) && queue[|vs|] == EntryOf(log[|before| + |vs|]);
      }
    }
  }

  // ---------- the loop ----------

  lemma {:induction false} InitInv(cfg: Config)
    requires ValidConfig(cfg)
    ensures Inv(cfg, InitLoop(cfg))
  {
    CountNone(InitLoop(cfg).flying);
  }

  lemma {:induction false} IssueInv(cfg: Config, s: Loop, ev: Event)
    requires Inv(cfg, s) && Enabled(cfg, s, ev) && ev.Issue?
    ensures Inv(cfg, Step(cfg, s, ev))
  {
    hide HistOk, LogOk;
    CountSet(s.flying, ev.client, true);
    CountNone(s.flying[ev.client := true]);
    var s' := Step(cfg, s, ev);
    forall c | 0 <= c < |cfg.keys| && s'.inFlight[c].Some?
      ensures FlightOk(cfg, c, s'.memo[c], s'.inFlight[c].value, s'.log, s'.timestamp)
    {
      assert c != ev.client ==> FlightOk(cfg, c, s.memo[c], s.inFlight[c].value, s.log, s.timestamp);
    }
  }

  /** The record of a harvested answer is a possible next record of the log. */
  lemma {:induction false} HarvestedNext(cfg: Config, s: Loop, c: nat, resp: KvResp)
    requires Inv(cfg, s) && Enabled(cfg, s, Harvest(c, resp))
    ensures var r := RecordOf(s, c, resp);
      NextRecord(cfg, s.log, r) && UpdateInfo(r.call) == s.memo[c].update && r.tsResp == s.timestamp + 1
  {
    hide HistOk, CountsOk, LogOk;
    assert FlightOk(cfg, c, s.memo[c], s.inFlight[c].value, s.log, s.timestamp);
  }

  lemma {:induction false} FlightsLand(cfg: Config, s: Loop, c: nat, resp: KvResp)
    requires Inv(cfg, s) && Enabled(cfg, s, Harvest(c, resp))
    ensures var q := Queued(s, c, resp);
      && FlightsOk(cfg, q.memo, q.inFlight, q.log, q.timestamp)
      && Past(q.log, q.timestamp) && LogOk(cfg, q.log)
  {
    hide HistOk, CountsOk, LogOk, CanGenerate, UpdateInfo;
    HarvestedNext(cfg, s, c, resp);
    LogExtends(cfg, s.log, RecordOf(s, c, resp));
    var q := Queued(s, c, resp);
    forall d | 0 <= d < |cfg.keys| && q.inFlight[d].Some?
      ensures FlightOk(cfg, d, q.memo[d], q.inFlight[d].value, q.log, q.timestamp)
    {
      assert FlightOk(cfg, d, s.memo[d], s.inFlight[d].value, s.log, s.timestamp);
    }
  }

  /** The counters after an answer that found nothing wrong. */
  lemma {:induction false} CountsLand(cfg: Config, s: Loop, s': Loop, c: nat)
    requires CountsOk(cfg, s) && s.status == Running && c < |s.flying| && s.flying[c] && s.waited < cfg.totalOps
    requires s'.flying == s.flying[c := false] && s'.inFlight == s.inFlight[c := None]
    requires s'.called == s.called && s'.waited == s.waited + 1 && s'.timestamp == s.timestamp + 1
    requires |s'.log| == |s.log| + 1 && s'.status == Running
    ensures CountsOk(cfg, s')
  {
    CountSet(s.flying, c, false);
  }

  lemma {:induction false} ReadInv(cfg: Config, s: Loop, c: nat, resp: KvResp)
    requires Inv(cfg, s) && Enabled(cfg, s, Harvest(c, resp)) && resp != StopResp
    requires s.memo[c].update == None
    ensures Inv(cfg, Step(cfg, s, Harvest(c, resp)))
  {
    hide HistOk, CountsOk, LogOk, Past, FlightsOk;
    HarvestedNext(cfg, s, c, resp);
    FlightsLand(cfg, s, c, resp);
    HistRead(cfg, s.hist, s.log, s.verdicts, RecordOf(s, c, resp));
    CountsLand(cfg, s, Step(cfg, s, Harvest(c, resp)), c);
  }

  /** The key of a flying update is in the pool, so acknowledging it never reports an
      unexpected key. */
  lemma {:induction false} KeyExpected(cfg: Config, s: Loop, c: nat, resp: KvResp)
    requires Inv(cfg, s) && Enabled(cfg, s, Harvest(c, resp)) && s.memo[c].update.Some?
    ensures s.memo[c].update.value.key in s.hist.spans
    ensures Ready(cfg, s.hist, s.log, RecordOf(s, c, resp), s.memo[c].update.value)
  {
    HarvestedNext(cfg, s, c, resp);
    hide LogOk, CountsOk, FlightsOk, SpansOk, QueueOk, CheckedOk, PendingOk, VerdictsOk, FailFast, Less;
    assert s.memo[c].update.value.key in cfg.keys[c];
  }

  lemma {:induction false} UpdateInv(cfg: Config, s: Loop, c: nat, resp: KvResp)
    requires Inv(cfg, s) && Enabled(cfg, s, Harvest(c, resp)) && resp != StopResp
    requires s.memo[c].update.Some?
    ensures Inv(cfg, Step(cfg, s, Harvest(c, resp)))
  {
    hide HistOk, LogOk, Past, FlightsOk, Acknowledge, MaxtrOk, NextRecord, MinOf, Drain, CanGenerate;
    var s', r, u := Step(cfg, s, Harvest(c, resp)), RecordOf(s, c, resp), s.memo[c].update.value;
    KeyExpected(cfg, s, c, resp);
    FlightsLand(cfg, s, c, resp);
    HistUpdate(cfg, s.hist, s.log, s.verdicts, r, u);
    var (h', vs) := Answered(s.hist, r, u);
    if !(vs != [] && !vs[|vs| - 1]) {
      CountsLand(cfg, s, s', c);
    }
  }

  lemma {:induction false} StopInv(cfg: Config, s: Loop, c: nat)
    requires Inv(cfg, s) && Enabled(cfg, s, Harvest(c, StopResp))
    ensures Inv(cfg, Step(cfg, s, Harvest(c, StopResp)))
  {
    hide HistOk, LogOk;
    var s' := Step(cfg, s, Harvest(c, StopResp));
    forall d | 0 <= d < |cfg.keys| && s'.inFlight[d].Some?
      ensures FlightOk(cfg, d, s'.memo[d], s'.inFlight[d].value, s'.log, s'.timestamp)
    {
      assert FlightOk(cfg, d, s.memo[d], s.inFlight[d].value, s.log, s.timestamp);
    }
  }

  /** The invariant holds in every state of every run. */
  lemma {:induction false} RunInv(cfg: Config, evs: seq<Event>)
    requires ValidConfig(cfg) && Legal(cfg, evs)
    ensures Inv(cfg, Run(cfg, evs))
  {
    if evs == [] {
      InitInv(cfg);
    } else {
      hide Inv;
      RunInv(cfg, evs[..|evs| - 1]);
      var s := Run(cfg, evs[..|evs| - 1]);
      match evs[|evs| - 1]
      case Issue(_, _) => IssueInv(cfg, s, evs[|evs| - 1]);
      case Harvest(c, resp) =>
        if resp == StopResp {
          StopInv(cfg, s, c);
        } else if s.memo[c].update == None {
          ReadInv(cfg, s, c, resp);
        } else {
          UpdateInv(cfg, s, c, resp);
        }
    }
  }
}
