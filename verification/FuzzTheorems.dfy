/** What the invariant says about whole runs of the fuzzing loop. */
module FuzzTheorems {
  import opened KvTypes
  import opened HistorySpec
  import opened FuzzMachine
  import opened FuzzInvariant
  import opened FuzzSafety
  import opened Acceptance

  // ---------- earlier and later states of one run ----------

  ghost predicate Extends(early: Loop, late: Loop) {
    && early.log <= late.log
    && early.verdicts <= late.verdicts
    && |early.hist.maxtr| == |late.hist.maxtr| > 0
    && MinOf(early.hist.maxtr) <= MinOf(late.hist.maxtr)
    && forall i :: |early.log| <= i < |late.log| ==> MinOf(early.hist.maxtr) < late.log[i].tsCall
  }

  lemma {:induction false} StepExtends(cfg: Config, s: Loop, ev: Event)
    requires Inv(cfg, s) && Enabled(cfg, s, ev)
    ensures Extends(s, Step(cfg, s, ev))
  {
    hide LogOk, FlightsOk, CountsOk, SpansOk, QueueOk, CheckedOk, PendingOk, VerdictsOk, Drain, MinOf, MaxtrOk, NextRecord, CanGenerate;
    if ev.Harvest? && ev.resp != StopResp {
      var c := ev.client;
      HarvestedNext(cfg, s, c, ev.resp);
      BeganLate(cfg, s.hist, s.log, RecordOf(s, c, ev.resp));
      if s.memo[c].update.Some? {
        KeyExpected(cfg, s, c, ev.resp);
        AnsweredMaxtr(cfg, s.hist, s.log, RecordOf(s, c, ev.resp), s.memo[c].update.value);
      }
    }
  }

  lemma {:induction false} ExtendsTransitive(a: Loop, b: Loop, c: Loop)
    requires Extends(a, b) && Extends(b, c)
    ensures Extends(a, c)
  {
    forall i | |a.log| <= i < |c.log|
      ensures MinOf(a.hist.maxtr) < c.log[i].tsCall
    {
      if i < |b.log| {
        assert c.log[i] == b.log[i];
      }
    }
  }

  /** Any prefix of a legal run is legal, and the run only adds to it. */
  lemma {:induction false} RunExtends(cfg: Config, evs: seq<Event>, n: nat)
    requires ValidConfig(cfg) && Legal(cfg, evs) && n <= |evs|
    ensures Legal(cfg, evs[..n]) && Extends(Run(cfg, evs[..n]), Run(cfg, evs))
  {
    hide Inv, MinOf;
    if n == |evs| {
      assert evs[..n] == evs;
    } else {
      var m := |evs| - 1;
      RunExtends(cfg, evs[..m], n);
      assert evs[..m][..n] == evs[..n];
      RunInv(cfg, evs[..m]);
      StepExtends(cfg, Run(cfg, evs[..m]), evs[m]);
      ExtendsTransitive(Run(cfg, evs[..n]), Run(cfg, evs[..m]), Run(cfg, evs));
    }
  }

  // ---------- main results about checking ----------

  /** Each verdict, given from trimmed histories as soon as the answer became decidable,
      is the verdict of the same check on the complete history: on the one known then
      and on the one known at any later point of the run. */
  lemma {:induction false} OnlineEqualsOffline(cfg: Config, evs: seq<Event>, n: nat, i: nat)
    requires ValidConfig(cfg) && Legal(cfg, evs) && n <= |evs|
    requires Legal(cfg, evs[..n]) && i < |Run(cfg, evs[..n]).verdicts|
    ensures var early, late := Run(cfg, evs[..n]), Run(cfg, evs);
      && i < |early.log| <= |late.log| && late.log[i] == early.log[i]
      && early.verdicts[i] == Offline(cfg, early.log, EntryOf(early.log[i]))
      && early.verdicts[i] == Offline(cfg, late.log, EntryOf(early.log[i]))
  {
    RunExtends(cfg, evs, n);
    RunInv(cfg, evs[..n]);
    RunInv(cfg, evs);
    hide LogOk, FlightsOk, CountsOk, SpansOk, QueueOk, CheckedOk, PendingOk, MinOf, MaxtrOk, Offline;
  }

  /** The loop reports a violation exactly when the offline check rejects one of the
      answers decided so far. */
  lemma {:induction false} ViolationIsOffline(cfg: Config, evs: seq<Event>)
    requires ValidConfig(cfg) && Legal(cfg, evs)
    ensures var s := Run(cfg, evs);
      && |s.verdicts| <= |s.log|
      && (s.status == Violated <==> exists i :: 0 <= i < |s.verdicts| && !Offline(cfg, s.log, EntryOf(s.log[i])))
  {
    hide Run, Legal, LogOk, FlightsOk, CountsOk, SpansOk, QueueOk, CheckedOk, PendingOk, MinOf, MaxtrOk, Offline, HistShaped;
    RunInv(cfg, evs);
    var s := Run(cfg, evs);
    if s.status == Violated {
      var last := |s.verdicts| - 1;
      assert !Offline(cfg, s.log, EntryOf(s.log[last]));
    }
  }

  /** The check is only approximate: a put answered "found", or a delete answered "not
      found", is never rejected, since its own record is in the log by then. */
  lemma {:induction false} OwnWriteNeverRejected(cfg: Config, evs: seq<Event>, i: nat)
    requires ValidConfig(cfg) && Legal(cfg, evs) && i < |Run(cfg, evs).verdicts| && i < |Run(cfg, evs).log|
    requires var r := Run(cfg, evs).log[i];
      (r.call.Put? && r.resp == PutResp(r.call.key, true)) || (r.call.Delete? && r.resp == DeleteResp(r.call.key, false))
    ensures Run(cfg, evs).verdicts[i]
  {
    hide Run, Legal, FlightsOk, CountsOk, SpansOk, QueueOk, CheckedOk, PendingOk, MinOf, MaxtrOk, Offline, HistShaped, LogAccepts;
    RunInv(cfg, evs);
    var s := Run(cfg, evs);
    var r := s.log[i];
    OwnWriteSupports(cfg, s.log, i);
    ExactAcceptance(cfg, s.log, EntryOf(r));
    assert r.call.key in cfg.keys[r.client];
    assert s.verdicts[i] == Offline(cfg, s.log, EntryOf(r));
  }

  /** Some client's latest update ended no later than record `r`: an update it may still
      have in flight could matter to `r`. */
  ghost predicate Undecided(cfg: Config, log: seq<Record>, r: Record) {
    exists c :: 0 <= c < |cfg.keys| && LastUpdate(log, c) <= r.tsResp
  }

  /** How many of the first `n` records are undecided. */
  ghost function CountUndecided(cfg: Config, log: seq<Record>, n: nat): nat
    requires n <= |log|
  {
    if n == 0 then 0 else CountUndecided(cfg, log, n - 1) + if Undecided(cfg, log, log[n - 1]) then 1 else 0
  }

  lemma {:induction false} CountTail(cfg: Config, log: seq<Record>, d: nat, n: nat)
    requires d <= |log| && n <= |log| && forall i :: 0 <= i < |log| ==> (Undecided(cfg, log, log[i]) <==> d <= i)
    ensures CountUndecided(cfg, log, n) == if d <= n then n - d else 0
  {
    hide Undecided;
    if n > 0 {
      CountTail(cfg, log, d, n - 1);
    }
  }

  /** While no violation is reported, the queue is, in response order, exactly the
      answers that ended no earlier than some client's latest update. */
  lemma {:induction false} PendingExact(cfg: Config, evs: seq<Event>)
    requires ValidConfig(cfg) && Legal(cfg, evs) && Run(cfg, evs).status != Violated
    ensures var s := Run(cfg, evs);
      && (forall i, j :: 0 <= i < j < |s.hist.queue| ==> s.hist.queue[i].tsResp < s.hist.queue[j].tsResp)
      && (forall i :: 0 <= i < |s.log| ==>
            (EntryOf(s.log[i]) in s.hist.queue <==> Undecided(cfg, s.log, s.log[i])))
      && (forall e :: e in s.hist.queue ==> exists i :: 0 <= i < |s.log| && e == EntryOf(s.log[i]))
      && |s.hist.queue| == CountUndecided(cfg, s.log, |s.log|)
  {
    hide Run, Legal, FlightsOk, CountsOk, SpansOk, VerdictsOk, LogOk, MaxtrOk, QueueOk, CheckedOk, PendingOk, Undecided;
    RunInv(cfg, evs);
    var s := Run(cfg, evs);
    PendingState(cfg, s.hist.queue, s.hist.maxtr, s.log, |s.verdicts|);
  }

  lemma {:induction false} PendingState(cfg: Config, queue: seq<QueuedSpan>, maxtr: seq<nat>, log: seq<Record>, d: nat)
    requires LogOk(cfg, log) && |maxtr| == |cfg.keys| > 0 && MaxtrOk(maxtr, log)
    requires QueueOk(queue, log, d) && CheckedOk(log, d, MinOf(maxtr)) && PendingOk(queue, MinOf(maxtr))
    ensures forall i, j :: 0 <= i < j < |queue| ==> queue[i].tsResp < queue[j].tsResp
    ensures forall i :: 0 <= i < |log| ==> (EntryOf(log[i]) in queue <==> Undecided(cfg, log, log[i]))
    ensures forall e :: e in queue ==> exists i :: 0 <= i < |log| && e == EntryOf(log[i])
    ensures |queue| == CountUndecided(cfg, log, |log|)
  {
    forall i | 0 <= i < |log|
      ensures EntryOf(log[i]) in queue <==> Undecided(cfg, log, log[i])
      ensures Undecided(cfg, log, log[i]) <==> d <= i
    {
      if d <= i {
        assert queue[i - d] == EntryOf(log[i]);
        var c :| 0 <= c < |maxtr| && maxtr[c] == MinOf(maxtr);
        assert LastUpdate(log, c) <= log[i].tsResp;
      } else {
        assert forall c :: 0 <= c < |cfg.keys| ==> log[i].tsResp < maxtr[c];
        assert forall j :: 0 <= j < |queue| ==> log[i].tsResp < queue[j].tsResp;
      }
    }
    CountTail(cfg, log, d, |log|);
  }

  /** A dropped span is never missed: the oldest kept span of that client and key ended
      before the call of every answer still queued and of every answer yet to come. */
  lemma {:induction false} TrimNeverMissed(cfg: Config, evs: seq<Event>, n: nat, k: string, c: nat, i: nat)
    requires ValidConfig(cfg) && Legal(cfg, evs) && n <= |evs| && Legal(cfg, evs[..n])
    requires k in Pool(cfg.keys) && c < |cfg.keys|
    requires |Run(cfg, evs[..n]).verdicts| <= i < |Run(cfg, evs).log|
    ensures var early, late := Run(cfg, evs[..n]), Run(cfg, evs);
      && k in early.hist.spans && c < |early.hist.spans[k]|
      && var kept, full := early.hist.spans[k][c], FullSpans(early.log, k, c);
      && 0 < |kept| <= |full| && kept == full[|full| - |kept|..]
      && (|kept| < |full| ==> kept[0].tsResp < late.log[i].tsCall)
  {
    hide Run, Legal, LogOk, FlightsOk, CountsOk, CheckedOk, PendingOk, VerdictsOk, MinOf, MaxtrOk, FullSpans;
    RunExtends(cfg, evs, n);
    RunInv(cfg, evs[..n]);
    var early, late := Run(cfg, evs[..n]), Run(cfg, evs);
    assert SafeSuffix(early.hist.spans[k][c], FullSpans(early.log, k, c), MinOf(early.hist.maxtr), early.hist.queue);
    if i < |early.log| {
      assert early.hist.queue[i - |early.verdicts|] == EntryOf(late.log[i]);
    }
  }

  /** The updated key's deque of client `d` after an answered update. */
  lemma {:induction false} TightDeque(cfg: Config, h: HistoryState, log: seq<Record>, r: Record, u: Update, d: nat)
    requires Ready(cfg, h, log, r, u) && d < |cfg.keys|
    requires SpansOk(h.spans, log, MinOf(h.maxtr), h.queue)
    ensures var h' := Answered(h, r, u).0;
      forall i :: 0 < i < |h'.spans[u.key][d]| ==>
        !Ended(h'.spans[u.key][d][i], MinOf(h'.maxtr), MinQueued(h.queue + [EntryOf(r)]))
  {
    hide MinOf, MinQueued, Drain, TrimClient, FullSpans, Sequential, CanGenerate, MaxtrOk;
    var h' := Answered(h, r, u).0;
    var cs := h.spans[u.key][d];
    var more := if IsUpdate(r, d, u.key) then [SpanOf(r)] else [];
    LogExtends(cfg, log, r);
    FullIsSequential(cfg, log + [r], u.key, d);
    assert SafeSuffix(cs, FullSpans(log, u.key, d), MinOf(h.maxtr), h.queue);
    PushedSequential(cs, log, r, u.key, d, MinOf(h.maxtr), h.queue);
    AcknowledgeActs(Enqueue(h, r.tsCall, r.tsResp, r.resp), r, u);
    TrimSafeAndTight(cs + more, MinOf(h'.maxtr), MinQueued(h.queue + [EntryOf(r)]));
  }

  lemma {:induction false} PushedSequential(kept: seq<UpdateSpan>, log: seq<Record>, r: Record, k: string, d: nat,
      bound: nat, queue: seq<QueuedSpan>)
    requires SafeSuffix(kept, FullSpans(log, k, d), bound, queue) && Sequential(FullSpans(log + [r], k, d))
    ensures var pushed := kept + if IsUpdate(r, d, k) then [SpanOf(r)] else [];
      pushed != [] && Sequential(pushed)
  {
    var more := if IsUpdate(r, d, k) then [SpanOf(r)] else [];
    FullAppend(log, r, k, d);
    PushKeepsSafe(kept, FullSpans(log, k, d), bound, queue, more);
  }

  /** After an update of a key, each client's deque of that key holds at most one span,
      its oldest, that ended before every client's latest update and every queued call. */
  lemma {:induction false} TrimIsTight(cfg: Config, evs: seq<Event>, c: nat, resp: KvResp, d: nat)
    requires ValidConfig(cfg) && Legal(cfg, evs) && Enabled(cfg, Run(cfg, evs), Harvest(c, resp)) && resp != StopResp
    requires Run(cfg, evs).memo[c].update.Some?
    requires d < |cfg.keys|
    ensures var s, r := Run(cfg, evs), RecordOf(Run(cfg, evs), c, resp);
      var s', k := Step(cfg, s, Harvest(c, resp)), s.memo[c].update.value.key;
      && k in s'.hist.spans && d < |s'.hist.spans[k]|
      && forall i :: 0 < i < |s'.hist.spans[k][d]| ==>
           !Ended(s'.hist.spans[k][d][i], MinOf(s'.hist.maxtr), MinQueued(s.hist.queue + [EntryOf(r)]))
  {
    hide Run, Legal, LogOk, FlightsOk, CountsOk, SpansOk, QueueOk, CheckedOk, PendingOk, VerdictsOk, MaxtrOk, MinOf, MinQueued,
         NextRecord, Acknowledge, Ended;
    var s, r, u := Run(cfg, evs), RecordOf(Run(cfg, evs), c, resp), Run(cfg, evs).memo[c].update.value;
    RunInv(cfg, evs);
    KeyExpected(cfg, s, c, resp);
    TightDeque(cfg, s.hist, s.log, r, u, d);
  }
}
