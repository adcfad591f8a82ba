/** What every reachable state of the fuzzing loop satisfies. */
module FuzzInvariant {
  import opened KvTypes
  import opened HistorySpec
  import opened FuzzMachine

  // ---------- the complete, never trimmed history ----------

  predicate IsUpdate(r: Record, c: nat, k: string) {
    r.client == c && UpdateInfo(r.call).Some? && UpdateInfo(r.call).value.key == k
  }

  function SpanOf(r: Record): UpdateSpan
    requires UpdateInfo(r.call).Some?
  {
    UpdateSpan(r.tsCall, r.tsResp, UpdateInfo(r.call).value.value)
  }

  function EntryOf(r: Record): QueuedSpan {
    QueuedSpan(r.tsCall, r.tsResp, r.resp)
  }

  /** All updates of `k` by client `c`, oldest first, after the dummy erasure. */
  function FullSpans(log: seq<Record>, k: string, c: nat): (full: seq<UpdateSpan>)
    ensures |full| > 0
  {
    if log == [] then [DUMMY]
    else
      var last := log[|log| - 1];
      FullSpans(log[..|log| - 1], k, c) + if IsUpdate(last, c, k) then [SpanOf(last)] else []
  }

  /** Response time of client `c`'s latest update, or 0. */
  function LastUpdate(log: seq<Record>, c: nat): nat {
    if log == [] then 0
    else
      var last := log[|log| - 1];
      if last.client == c && UpdateInfo(last.call).Some? then last.tsResp
      else LastUpdate(log[..|log| - 1], c)
  }

  function FullKey(cfg: Config, log: seq<Record>, k: string): seq<seq<UpdateSpan>> {
    seq(|cfg.keys|, c requires 0 <= c => FullSpans(log, k, c))
  }

  function FullMap(cfg: Config, log: seq<Record>): map<string, seq<seq<UpdateSpan>>> {
    map k | k in Pool(cfg.keys) :: FullKey(cfg, log, k)
  }

  /** The offline verdict: the same check on the complete history. */
  ghost predicate Offline(cfg: Config, log: seq<Record>, e: QueuedSpan) {
    CallAccepts(FullMap(cfg, log), e)
  }

  // ---------- the invariant ----------

  /** Each response time is used once, and each client is sequential. */
  ghost predicate LogOk(cfg: Config, log: seq<Record>) {
    && (forall i :: 0 <= i < |log| ==>
          && log[i].client < |cfg.keys|
          && 0 < log[i].tsCall < log[i].tsResp
          && CanGenerate(cfg.keys[log[i].client], log[i].call))
    && (forall i, j :: 0 <= i < j < |log| ==> log[i].tsResp < log[j].tsResp)
    && (forall i, j :: 0 <= i < j < |log| && log[i].client == log[j].client ==> log[i].tsResp < log[j].tsCall)
    && (forall i, j :: 0 <= i < |log| && 0 <= j < |log| ==> log[i].tsResp != log[j].tsCall)
  }

  ghost predicate Past(log: seq<Record>, timestamp: nat) {
    forall i :: 0 <= i < |log| ==> log[i].tsResp <= timestamp
  }

  /** A call in flight began after everything its client was answered before. */
  ghost predicate FlightOk(cfg: Config, c: nat, memo: Memo, call: KvCall, log: seq<Record>, timestamp: nat)
    requires c < |cfg.keys|
  {
    && 0 < memo.ts <= timestamp
    && memo.update == UpdateInfo(call)
    && CanGenerate(cfg.keys[c], call)
    && (forall i :: 0 <= i < |log| && log[i].client == c ==> log[i].tsResp < memo.ts)
    && (forall i :: 0 <= i < |log| ==> log[i].tsResp != memo.ts)
  }

  ghost predicate FlightsOk(cfg: Config, memo: seq<Memo>, inFlight: seq<Option<KvCall>>, log: seq<Record>,
      timestamp: nat)
    requires |memo| == |inFlight| == |cfg.keys|
  {
    forall c :: 0 <= c < |cfg.keys| && inFlight[c].Some? ==>
      FlightOk(cfg, c, memo[c], inFlight[c].value, log, timestamp)
  }

  /** `kept` is the newest part of `full`; if anything was dropped, the oldest kept span
      ended before `bound` and before the call of every queued response. */
  ghost predicate SafeSuffix(kept: seq<UpdateSpan>, full: seq<UpdateSpan>, bound: nat, queue: seq<QueuedSpan>) {
    && 0 < |kept| <= |full|
    && kept == full[|full| - |kept|..]
    && (|kept| < |full| ==>
          && kept[0].tsResp < bound
          && forall i :: 0 <= i < |queue| ==> kept[0].tsResp < queue[i].tsCall)
  }

  ghost predicate SpansOk(spans: map<string, seq<seq<UpdateSpan>>>, log: seq<Record>, bound: nat,
      queue: seq<QueuedSpan>) {
    forall k, c :: k in spans && 0 <= c < |spans[k]| ==> SafeSuffix(spans[k][c], FullSpans(log, k, c), bound, queue)
  }

  ghost predicate MaxtrOk(maxtr: seq<nat>, log: seq<Record>) {
    forall c :: 0 <= c < |maxtr| ==> maxtr[c] == LastUpdate(log, c)
  }

  /** The queue is the tail of the log after the first `n` records. */
  ghost predicate QueueOk(queue: seq<QueuedSpan>, log: seq<Record>, n: nat) {
    && n + |queue| == |log|
    && forall i :: 0 <= i < |queue| ==> queue[i] == EntryOf(log[n + i])
  }

  /** Checked responses ended before every client's latest update. */
  ghost predicate CheckedOk(log: seq<Record>, n: nat, bound: nat) {
    n <= |log| && forall i :: 0 <= i < n ==> log[i].tsResp < bound
  }

  /** Unchecked responses did not. */
  ghost predicate PendingOk(queue: seq<QueuedSpan>, bound: nat) {
    forall i :: 0 <= i < |queue| ==> bound <= queue[i].tsResp
  }

  /** Each verdict is the offline verdict on the complete log of all answers so far. */
  ghost predicate VerdictsOk(cfg: Config, log: seq<Record>, verdicts: seq<bool>) {
    |verdicts| <= |log| && forall i :: 0 <= i < |verdicts| ==> verdicts[i] == Offline(cfg, log, EntryOf(log[i]))
  }

  /** Only the last verdict can be negative, and it is exactly after a violation. */
  ghost predicate FailFast(verdicts: seq<bool>, violated: bool) {
    && (forall i :: 0 <= i < |verdicts| - 1 ==> verdicts[i])
    && (violated <==> verdicts != [] && !verdicts[|verdicts| - 1])
  }

  ghost predicate HistShaped(cfg: Config, h: HistoryState) {
    |h.maxtr| == |cfg.keys| > 0 && h.spans.Keys == Pool(cfg.keys) && Shaped(h)
  }

  ghost predicate HistOk(cfg: Config, h: HistoryState, log: seq<Record>, verdicts: seq<bool>, violated: bool) {
    && HistShaped(cfg, h)
    && MaxtrOk(h.maxtr, log)
    && SpansOk(h.spans, log, MinOf(h.maxtr), h.queue)
    && QueueOk(h.queue, log, |verdicts|)
    && CheckedOk(log, |verdicts|, MinOf(h.maxtr))
    && (!violated ==> PendingOk(h.queue, MinOf(h.maxtr)))
    && VerdictsOk(cfg, log, verdicts)
    && FailFast(verdicts, violated)
  }

  function CountFlying(flying: seq<bool>): nat {
    if flying == [] then 0
    else CountFlying(flying[..|flying| - 1]) + if flying[|flying| - 1] then 1 else 0
  }

  ghost predicate CountsOk(cfg: Config, s: Loop) {
    && s.waited <= s.called <= cfg.totalOps
    && s.status != BadKey
    && |s.flying| == |s.inFlight|
    && (s.status == Running ==>
          && s.timestamp == s.called + s.waited
          && s.called == s.waited + CountFlying(s.flying)
          && s.waited == |s.log|
          && forall c :: 0 <= c < |s.flying| ==> s.flying[c] == s.inFlight[c].Some?)
  }

  ghost predicate Inv(cfg: Config, s: Loop) {
    && |cfg.keys| > 0
    && Formed(cfg, s)
    && LogOk(cfg, s.log)
    && Past(s.log, s.timestamp)
    && FlightsOk(cfg, s.memo, s.inFlight, s.log, s.timestamp)
    && HistOk(cfg, s.hist, s.log, s.verdicts, s.status == Violated)
    && CountsOk(cfg, s)
  }

  // ---------- trimming is invisible ----------

  lemma {:induction false} SuffixSameVerdict(kept: seq<UpdateSpan>, full: seq<UpdateSpan>, tsCall: nat, tsResp: nat,
      want: Want)
    requires 0 < |kept| <= |full| && kept == full[|full| - |kept|..]
    requires |kept| < |full| ==> kept[0].tsResp < tsCall
    ensures ClientAccepts(kept, tsCall, tsResp, want) == ClientAccepts(full, tsCall, tsResp, want)
  {
    var d := |full| - |kept|;
    if ClientAccepts(kept, tsCall, tsResp, want) {
      var i :| 0 <= i < |kept| && Witness(kept, i, tsCall, tsResp, want);
      assert Witness(full, d + i, tsCall, tsResp, want) by {
        assert forall j :: d + i < j < |full| ==> full[j] == kept[j - d];
      }
    }
    if ClientAccepts(full, tsCall, tsResp, want) {
      var i :| 0 <= i < |full| && Witness(full, i, tsCall, tsResp, want);
      assert full[d] == kept[0];
      assert Witness(kept, i - d, tsCall, tsResp, want);
    }
  }

  /** Two histories that decide every key alike decide every response alike. */
  lemma {:induction false} SameVerdict(a: map<string, seq<seq<UpdateSpan>>>, b: map<string, seq<seq<UpdateSpan>>>,
      e: QueuedSpan)
    requires a.Keys == b.Keys
    requires forall k, want :: k in a ==>
      KeyAccepts(a[k], e.tsCall, e.tsResp, want) == KeyAccepts(b[k], e.tsCall, e.tsResp, want)
    ensures CallAccepts(a, e) == CallAccepts(b, e)
  {
    if e.resp.ScanResp? {
      forall k | k in a
        ensures ScanKeyAccepts(a, k, e.tsCall, e.tsResp, e.resp.entries) == ScanKeyAccepts(b, k, e.tsCall, e.tsResp, e.resp.entries)
      {
      }
    }
  }

  /** A response whose call no dropped span's successor overlaps is decided alike by the
      trimmed and by the complete history. */
  lemma {:induction false} TrimmedSameVerdict(cfg: Config, spans: map<string, seq<seq<UpdateSpan>>>, log: seq<Record>,
                           bound: nat, queue: seq<QueuedSpan>, i: nat)
    requires spans.Keys == Pool(cfg.keys)
    requires forall k :: k in spans ==> |spans[k]| == |cfg.keys|
    requires SpansOk(spans, log, bound, queue)
    requires i < |queue|
    ensures CallAccepts(spans, queue[i]) == Offline(cfg, log, queue[i])
  {
    var e := queue[i];
    var full := FullMap(cfg, log);
    forall k, want | k in spans
      ensures KeyAccepts(spans[k], e.tsCall, e.tsResp, want) == KeyAccepts(full[k], e.tsCall, e.tsResp, want)
    {
      forall c | 0 <= c < |cfg.keys|
        ensures ClientAccepts(spans[k][c], e.tsCall, e.tsResp, want) == ClientAccepts(full[k][c], e.tsCall, e.tsResp, want)
      {
        SuffixSameVerdict(spans[k][c], FullSpans(log, k, c), e.tsCall, e.tsResp, want);
      }
    }
    SameVerdict(spans, full, e);
  }

  // ---------- later updates are invisible ----------

  lemma {:induction false} AppendSameVerdict(full: seq<UpdateSpan>, span: UpdateSpan, tsCall: nat, tsResp: nat,
      want: Want)
    requires tsResp <= span.tsCall && tsCall <= span.tsResp
    ensures ClientAccepts(full + [span], tsCall, tsResp, want) == ClientAccepts(full, tsCall, tsResp, want)
  {
    if ClientAccepts(full, tsCall, tsResp, want) {
      var i :| 0 <= i < |full| && Witness(full, i, tsCall, tsResp, want);
      assert Witness(full + [span], i, tsCall, tsResp, want);
    }
    if ClientAccepts(full + [span], tsCall, tsResp, want) {
      var i :| 0 <= i < |full| + 1 && Witness(full + [span], i, tsCall, tsResp, want);
      assert i < |full|;
      assert forall j :: i < j < |full| ==> full[j] == (full + [span])[j];
      assert Witness(full, i, tsCall, tsResp, want);
    }
  }

  /** An operation called after `e` ended does not change the offline verdict on `e`. */
  lemma {:induction false} StableVerdict(cfg: Config, log: seq<Record>, r: Record, e: QueuedSpan)
    requires e.tsCall <= e.tsResp <= r.tsCall <= r.tsResp
    ensures Offline(cfg, log + [r], e) == Offline(cfg, log, e)
  {
    var a, b := FullMap(cfg, log), FullMap(cfg, log + [r]);
    forall k, want | k in a
      ensures KeyAccepts(a[k], e.tsCall, e.tsResp, want) == KeyAccepts(b[k], e.tsCall, e.tsResp, want)
    {
      forall c | 0 <= c < |cfg.keys|
        ensures ClientAccepts(a[k][c], e.tsCall, e.tsResp, want) == ClientAccepts(b[k][c], e.tsCall, e.tsResp, want)
      {
        assert (log + [r])[..|log|] == log;
        if IsUpdate(r, c, k) {
          AppendSameVerdict(FullSpans(log, k, c), SpanOf(r), e.tsCall, e.tsResp, want);
        } else {
          assert FullSpans(log + [r], k, c) == FullSpans(log, k, c);
        }
      }
    }
    SameVerdict(a, b, e);
  }

  // ---------- what trimming keeps ----------

  ghost predicate Sequential(cs: seq<UpdateSpan>) {
    && (forall i :: 0 <= i < |cs| ==> cs[i].tsCall <= cs[i].tsResp)
    && (forall i, j :: 0 <= i < j < |cs| ==> cs[i].tsResp < cs[j].tsCall)
  }

  predicate Ended(span: UpdateSpan, minComing: nat, minQueued: nat) {
    span.tsResp < minComing && span.tsResp < minQueued
  }

  lemma {:induction false} KeepIndex(cs: seq<UpdateSpan>, minComing: nat, minQueued: nat) returns (p: int)
    ensures -1 <= p < |cs|
    ensures forall i :: p < i < |cs| ==> !Ended(cs[i], minComing, minQueued)
    ensures p == -1 ==> KeepTs(cs, minComing, minQueued) == 0
    ensures p >= 0 ==> Ended(cs[p], minComing, minQueued) && KeepTs(cs, minComing, minQueued) == cs[p].tsCall
  {
    if cs == [] {
      p := -1;
    } else if Ended(cs[|cs| - 1], minComing, minQueued) {
      p := |cs| - 1;
    } else {
      p := KeepIndex(cs[..|cs| - 1], minComing, minQueued);
    }
  }

  lemma {:induction false} DropTo(cs: seq<UpdateSpan>, keepTs: nat, p: nat)
    requires p < |cs|
    requires forall i :: 0 <= i < p ==> cs[i].tsResp < keepTs
    requires keepTs <= cs[p].tsResp
    ensures DropBefore(cs, keepTs) == cs[p..]
  {
    if p > 0 {
      DropTo(cs[1..], keepTs, p - 1);
      assert cs[1..][p - 1..] == cs[p..];
    }
  }

  /** Trimming keeps a non-empty newest part; it drops only what precedes a span that
      ended before both bounds, and leaves no other such span than the oldest kept. */
  lemma {:induction false} TrimSafeAndTight(cs: seq<UpdateSpan>, minComing: nat, minQueued: nat)
    requires cs != [] && Sequential(cs)
    ensures var kept := TrimClient(cs, minComing, minQueued);
      && 0 < |kept| <= |cs|
      && kept == cs[|cs| - |kept|..]
      && (|kept| < |cs| ==> Ended(kept[0], minComing, minQueued))
      && (forall i :: 0 < i < |kept| ==> !Ended(kept[i], minComing, minQueued))
  {
    var p := KeepIndex(cs, minComing, minQueued);
    if p >= 0 {
      DropTo(cs, cs[p].tsCall, p);
    } else {
      DropTo(cs, 0, 0);
    }
  }

  lemma {:induction false} FullSequential(log: seq<Record>, k: string, c: nat, bound: nat)
    requires forall i :: 0 <= i < |log| ==> log[i].tsCall < log[i].tsResp && 0 < log[i].tsCall
    requires forall i, j :: 0 <= i < j < |log| && log[i].client == log[j].client ==> log[i].tsResp < log[j].tsCall
    requires 0 < bound && forall i :: 0 <= i < |log| && log[i].client == c ==> log[i].tsResp < bound
    ensures Sequential(FullSpans(log, k, c))
    ensures forall i :: 0 <= i < |FullSpans(log, k, c)| ==> FullSpans(log, k, c)[i].tsResp < bound
  {
    if log != [] {
      var last := log[|log| - 1];
      FullSequential(log[..|log| - 1], k, c, if IsUpdate(last, c, k) then last.tsCall else bound);
    }
  }

  lemma {:induction false} LastUpdateBound(log: seq<Record>, c: nat, bound: nat)
    requires forall i :: 0 <= i < |log| && log[i].client == c ==> log[i].tsResp < bound
    requires 0 < bound
    ensures LastUpdate(log, c) < bound
  {
    if log != [] {
      LastUpdateBound(log[..|log| - 1], c, bound);
    }
  }

  lemma {:induction false} FullAppend(log: seq<Record>, r: Record, k: string, c: nat)
    ensures FullSpans(log + [r], k, c) == FullSpans(log, k, c) + if IsUpdate(r, c, k) then [SpanOf(r)] else []
    ensures LastUpdate(log + [r], c) == if r.client == c && UpdateInfo(r.call).Some? then r.tsResp else LastUpdate(log, c)
  {
    assert (log + [r])[..|log|] == log;
  }

  lemma {:induction false} MinMonotone(a: seq<nat>, c: nat, ts: nat)
    requires c < |a| && a[c] <= ts
    ensures MinOf(a) <= MinOf(a[c := ts])
  {
    var b := a[c := ts];
    var i :| 0 <= i < |b| && b[i] == MinOf(b);
  }
}
