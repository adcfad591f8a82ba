/** The reference client leaves out the upper key of a scan; the checker expects it. */
module ScanBounds {
  import opened KvTypes
  import opened KvStore
  import opened HistorySpec
  import opened FuzzMachine
  import opened FuzzInvariant
  import opened FuzzSafety
  import opened FuzzSchedule
  import opened Linearization
  import opened OneClient

  /** For ordered bounds, leaving out the upper key answers the inclusive scan exactly
      when that key is not stored. */
  lemma {:induction false} UpperKeyMatters(store: Store, lo: string, hi: string, entries: seq<(string, string)>)
    requires IsScan(store, Exclusive, lo, hi, entries) && !Less(hi, lo)
    ensures IsScan(store, Inclusive, lo, hi, entries) <==> hi !in store
  {
    LessIrreflexive(hi);
    forall i | 0 <= i < |entries|
      ensures entries[i].0 != hi
    {
      assert InScan(Exclusive, lo, entries[i].0, hi);
    }
    assert !HasKey(entries, hi) && InScan(Inclusive, lo, hi, hi);
    if hi !in store {
      forall k | k in store && InScan(Inclusive, lo, k, hi)
        ensures HasKey(entries, k)
      {
        LessTotal(k, hi);
        assert InScan(Exclusive, lo, k, hi);
      }
      forall i | 0 <= i < |entries|
        ensures InScan(Inclusive, lo, entries[i].0, hi)
      {
        LessAsymmetric(entries[i].0, hi);
      }
    }
  }

  // ---------- what the checker makes of half-open scans ----------

  /** A half-open scan fits the map exactly if its upper key is not stored. */
  lemma {:induction false} HalfOpenFits(pool: set<string>, store: Store, lo: string, hi: string,
      entries: seq<(string, string)>)
    requires IsScan(store, Exclusive, lo, hi, entries) && !Less(hi, lo) && hi in pool
    ensures AnswerFits(pool, store, Scan(lo, hi), ScanResp(lo, hi, entries)) <==> hi !in store
  {
    hide IsScan, EntriesOk, Lookup;
    UpperKeyMatters(store, lo, hi, entries);
    LessIrreflexive(hi);
    if hi !in store {
      ScanLooksUp(store, lo, hi, entries);
    } else {
      UpperAbsent(store, lo, hi, entries);
      LookupAbsent(entries, hi);
      assert InRange(lo, hi, hi) && !Fits(store, Scan(lo, hi), hi, Exactly(Lookup(entries, hi)));
    }
  }

  lemma {:induction false} UpperAbsent(store: Store, lo: string, hi: string, entries: seq<(string, string)>)
    requires IsScan(store, Exclusive, lo, hi, entries)
    ensures !HasKey(entries, hi)
  {
    LessIrreflexive(hi);
  }

  /** The call is a scan whose upper key is stored. */
  predicate MissesUpper(store: Store, call: KvCall) {
    call.Scan? && call.keyEnd in store
  }

  lemma {:induction false} OwnAnswerFits(pool: set<string>, keys: seq<string>, store: Store, call: KvCall, resp: KvResp)
    requires CanGenerate(keys, call) && (forall k :: k in keys ==> k in pool) && Answers(store, Exclusive, call, resp)
    ensures AnswerFits(pool, store, call, resp) <==> !MissesUpper(store, call)
  {
    hide IsScan, EntriesOk, Lookup, Less;
    if call.Scan? {
      assert resp == ScanResp(call.keyStart, call.keyEnd, resp.entries);
      HalfOpenFits(pool, store, call.keyStart, call.keyEnd, resp.entries);
    }
  }

  /** Every answer is that of a map with half-open scans to the calls before. */
  ghost predicate FollowsOwnMap(log: seq<Record>) {
    forall i :: 0 <= i < |log| ==> Answers(StoreAt(log, i), Exclusive, log[i].call, log[i].resp)
  }

  /** A lone client that answers from its own map with half-open scans gets a negative
      verdict exactly for scans whose upper key was stored, and the run is reported as a
      violation if and only if such a scan was checked. */
  lemma {:induction false} HalfOpenVerdicts(cfg: Config, evs: seq<Event>)
    requires ValidConfig(cfg) && |cfg.keys| == 1 && Legal(cfg, evs) && FollowsOwnMap(Run(cfg, evs).log)
    ensures var s := Run(cfg, evs);
      && |s.verdicts| <= |s.log|
      && (forall i :: 0 <= i < |s.verdicts| ==> (s.verdicts[i] <==> !MissesUpper(StoreAt(s.log, i), s.log[i].call)))
      && (s.status == Violated <==> exists i :: 0 <= i < |s.verdicts| && MissesUpper(StoreAt(s.log, i), s.log[i].call))
  {
    hide Run, Legal, FlightsOk, CountsOk, SpansOk, QueueOk, CheckedOk, PendingOk, MaxtrOk, Offline, AnswerFits, Answers,
         CanGenerate, MissesUpper, StoreAt;
    RunInv(cfg, evs);
    var s := Run(cfg, evs);
    forall i | 0 <= i < |s.verdicts|
      ensures s.verdicts[i] <==> !MissesUpper(StoreAt(s.log, i), s.log[i].call)
    {
      VerdictsExact(cfg, evs, i);
      assert s.log[i].client == 0;
      OwnAnswerFits(Pool(cfg.keys), cfg.keys[0], StoreAt(s.log, i), s.log[i].call, s.log[i].resp);
    }
    if s.status == Violated {
      assert !s.verdicts[|s.verdicts| - 1];
    }
  }

  // ---------- such a run exists ----------

  /** A lone client with nothing in flight. */
  ghost predicate Idle(cfg: Config, s: Loop, n: nat) {
    && |cfg.keys| == 1 && Formed(cfg, s) && s.status == Running && s.flying == [false]
    && s.called == s.waited == n && |s.log| == n
  }

  /** One call and its answer. */
  lemma {:induction false} OneRound(cfg: Config, evs: seq<Event>, n: nat, call: KvCall, resp: KvResp)
    returns (evs': seq<Event>)
    requires ValidConfig(cfg) && Legal(cfg, evs) && Idle(cfg, Run(cfg, evs), n) && n < cfg.totalOps
    requires CanGenerate(cfg.keys[0], call) && resp != StopResp && |evs| == 2 * n
    ensures evs' == evs + [Issue(0, call)] + [Harvest(0, resp)] && Legal(cfg, evs')
    ensures var s' := Run(cfg, evs');
      && s'.log == Run(cfg, evs).log + [Record(0, call, 2 * n + 1, 2 * n + 2, resp)]
      && (s'.status != Violated ==> Idle(cfg, s', n + 1))
      && (UpdateInfo(call) == None ==> s'.status == Running)
  {
    hide Run, Legal, HistOk, LogOk, FlightsOk, CanGenerate, Acknowledge;
    var s := Run(cfg, evs);
    ClockIsLength(cfg, evs);
    assert !s.flying[0];
    RunExtend(cfg, evs, Issue(0, call));
    var mid := evs + [Issue(0, call)];
    RunInv(cfg, mid);
    var t := Run(cfg, mid);
    assert t.flying == [true] && t.flying[0];
    RunExtend(cfg, mid, Harvest(0, resp));
    if UpdateInfo(call).Some? {
      KeyExpected(cfg, t, 0, resp);
    }
    evs' := mid + [Harvest(0, resp)];
  }

  /** An answer that ended no earlier than the latest update is not checked yet, and one
      that ended before it is, unless a violation stopped the run. */
  lemma {:induction false} CheckedExact(cfg: Config, evs: seq<Event>)
    requires ValidConfig(cfg) && |cfg.keys| == 1 && Legal(cfg, evs)
    ensures var s := Run(cfg, evs);
      && |s.verdicts| <= |s.log|
      && (s.status == Violated ==> s.verdicts != [])
      && (forall i :: 0 <= i < |s.verdicts| ==> s.log[i].tsResp < LastUpdate(s.log, 0))
      && (s.status != Violated ==>
            forall i :: 0 <= i < |s.log| && s.log[i].tsResp < LastUpdate(s.log, 0) ==> i < |s.verdicts|)
  {
    hide Run, Legal, FlightsOk, CountsOk, SpansOk, Offline, LogOk;
    RunInv(cfg, evs);
    var s := Run(cfg, evs);
    assert MinOf(s.hist.maxtr) == LastUpdate(s.log, 0);
    if s.status != Violated {
      forall i | |s.verdicts| <= i < |s.log|
        ensures LastUpdate(s.log, 0) <= s.log[i].tsResp
      {
        assert s.hist.queue[i - |s.verdicts|] == EntryOf(s.log[i]);
      }
    }
  }

  /** A put, a scan of just that key, and another put, answered from a map with half-open scans. */
  function PutScanPut(k: string, v: string, w: string): seq<Record> {
    [Record(0, Put(k, v), 1, 2, PutResp(k, false)),
     Record(0, Scan(k, k), 3, 4, ScanResp(k, k, [])),
     Record(0, Put(k, w), 5, 6, PutResp(k, true))]
  }

  lemma {:induction false} PutScanPutFollows(k: string, v: string, w: string)
    ensures var log := PutScanPut(k, v, w);
      FollowsOwnMap(log) && MissesUpper(StoreAt(log, 1), log[1].call) && LastUpdate(log, 0) == 6
  {
    var log := PutScanPut(k, v, w);
    LessIrreflexive(k);
    assert StoreAt(log, 0) == map[];
    assert StoreAt(log, 1) == map[k := v];
    assert StoreAt(log, 2) == map[k := v];
  }

  lemma {:induction false} PutScanPutRun(cfg: Config, k: string, v: string, w: string) returns (evs: seq<Event>)
    requires cfg.keys == [[k]] && cfg.totalOps >= 3
    ensures Legal(cfg, evs) && Run(cfg, evs).log == PutScanPut(k, v, w)
  {
    hide Run, Legal;
    evs := [];
    StartsIdle(cfg);
    LessIrreflexive(k);
    evs := OneRound(cfg, evs, 0, Put(k, v), PutResp(k, false));
    FirstUnchecked(cfg, evs);
    evs := OneRound(cfg, evs, 1, Scan(k, k), ScanResp(k, k, []));
    evs := OneRound(cfg, evs, 2, Put(k, w), PutResp(k, true));
  }

  lemma {:induction false} StartsIdle(cfg: Config)
    requires |cfg.keys| == 1
    ensures Legal(cfg, []) && Idle(cfg, Run(cfg, []), 0) && Run(cfg, []).log == []
  {
  }

  /** After a single answer nothing can be checked. */
  lemma {:induction false} FirstUnchecked(cfg: Config, evs: seq<Event>)
    requires ValidConfig(cfg) && |cfg.keys| == 1 && Legal(cfg, evs) && |Run(cfg, evs).log| == 1
    ensures Run(cfg, evs).status != Violated
  {
    hide Run, Legal;
    CheckedExact(cfg, evs);
    var s := Run(cfg, evs);
    assert LastUpdate(s.log, 0) <= s.log[0].tsResp;
  }

  /** With a pool of one key, the fuzzer faults a client that answers a put, a scan of
      just that key and another put from its own map with half-open scans. */
  lemma {:induction false} HalfOpenScanFaulted(cfg: Config, k: string, v: string, w: string) returns (evs: seq<Event>)
    requires cfg.keys == [[k]] && cfg.totalOps >= 3
    ensures Legal(cfg, evs) && Run(cfg, evs).log == PutScanPut(k, v, w)
    ensures FollowsOwnMap(Run(cfg, evs).log) && Run(cfg, evs).status == Violated
  {
    hide Run, Legal, FollowsOwnMap, StoreAt, MissesUpper, LastUpdate;
    evs := PutScanPutRun(cfg, k, v, w);
    PutScanPutFollows(k, v, w);
    HalfOpenVerdicts(cfg, evs);
    CheckedExact(cfg, evs);
    assert Run(cfg, evs).log[1].tsResp == 4;
  }
}
