/** Counters, scheduling and caller obligations of the fuzzing loop. */
module FuzzSchedule {
  import opened KvTypes
  import opened HistorySpec
  import opened FuzzMachine
  import opened FuzzInvariant
  import opened FuzzSafety

  lemma {:induction false} ClockIsLength(cfg: Config, evs: seq<Event>)
    requires Legal(cfg, evs)
    ensures Run(cfg, evs).timestamp == |evs|
  {
    if evs != [] {
      ClockIsLength(cfg, evs[..|evs| - 1]);
    }
  }

  /** Every iteration is a call or a harvest, calls exceed harvests by the clients in
      flight, and the run is over, with nothing in flight, after exactly `2 * totalOps`
      iterations unless it was cut short. */
  lemma {:induction false} CountersExact(cfg: Config, evs: seq<Event>)
    requires ValidConfig(cfg) && Legal(cfg, evs)
    ensures |evs| <= 2 * cfg.totalOps
    ensures var s := Run(cfg, evs);
      s.status == Running ==>
        && |evs| == s.timestamp == s.called + s.waited
        && s.called - s.waited == CountFlying(s.flying)
        && s.called <= cfg.totalOps
        && (s.waited == cfg.totalOps <==> |evs| == 2 * cfg.totalOps)
        && (s.waited == cfg.totalOps ==> NoneFlying(s.flying))
  {
    hide HistOk, FlightsOk, LogOk, Past;
    RunInv(cfg, evs);
    ClockIsLength(cfg, evs);
    CountNone(Run(cfg, evs).flying);
    if evs != [] {
      RunInv(cfg, evs[..|evs| - 1]);
      ClockIsLength(cfg, evs[..|evs| - 1]);
    }
  }

  /** Whichever way the coin falls, a client of the wanted kind exists. */
  lemma {:induction false} SchedulerNeverStarves(cfg: Config, evs: seq<Event>)
    requires ValidConfig(cfg) && Legal(cfg, evs)
    requires Run(cfg, evs).status == Running && Run(cfg, evs).waited < cfg.totalOps
    ensures var s := Run(cfg, evs);
      && (MayCall(s.called, cfg.totalOps, s.flying) || MayWait(s.called, cfg.totalOps, s.flying))
      && (MayCall(s.called, cfg.totalOps, s.flying) ==> exists c :: 0 <= c < |cfg.keys| && !s.flying[c])
      && (MayWait(s.called, cfg.totalOps, s.flying) ==>
            exists c :: 0 <= c < |cfg.keys| && s.flying[c] && s.inFlight[c].Some?)
  {
    hide HistOk, FlightsOk, LogOk, Past, Run, Legal;
    RunInv(cfg, evs);
    CountNone(Run(cfg, evs).flying);
  }

  /** The calls the generator draws for a client: any put, swap, get or delete of one of
      its keys, and any scan between two of them in order. */
  lemma {:induction false} GeneratedExact(keys: seq<string>, call: KvCall)
    ensures CanGenerate(keys, call) <==>
      || (call.Put? && call.key in keys) || (call.Swap? && call.key in keys) || (call.Get? && call.key in keys)
      || (call.Delete? && call.key in keys)
      || (call.Scan? && call.keyStart in keys && call.keyEnd in keys &&
          (call.keyStart == call.keyEnd || Less(call.keyStart, call.keyEnd)))
  {
    if call.Scan? {
      LessTotal(call.keyStart, call.keyEnd);
      LessIrreflexive(call.keyStart);
      if Less(call.keyStart, call.keyEnd) {
        LessAsymmetric(call.keyStart, call.keyEnd);
      }
    }
  }

  /** The transition system leaves the loop all its choices: until the run is over, any
      idle client may make any call it can draw while calls are left, and any client in
      flight may be answered anything. */
  lemma {:induction false} EveryChoice(cfg: Config, evs: seq<Event>, c: nat, call: KvCall, resp: KvResp)
    requires ValidConfig(cfg) && Legal(cfg, evs) && c < |cfg.keys|
    requires Run(cfg, evs).status == Running && Run(cfg, evs).waited < cfg.totalOps
    ensures var s := Run(cfg, evs);
      && (!s.flying[c] && s.called < cfg.totalOps && CanGenerate(cfg.keys[c], call) ==> Legal(cfg, evs + [Issue(c, call)]))
      && (s.flying[c] ==> Legal(cfg, evs + [Harvest(c, resp)]))
  {
    RunInv(cfg, evs);
    hide Run, Legal, HistOk, FlightsOk, LogOk, Past, CanGenerate;
    var s := Run(cfg, evs);
    if !s.flying[c] && s.called < cfg.totalOps && CanGenerate(cfg.keys[c], call) {
      RunExtend(cfg, evs, Issue(c, call));
    }
    if s.flying[c] {
      RunExtend(cfg, evs, Harvest(c, resp));
    }
  }

  /** What `AddToQueue` and `ApplyUpdate` ask of their caller holds at every harvest, and
      the key of an update is one of those given to the history. */
  lemma {:induction false} ContractsMet(cfg: Config, s: Loop, c: nat, resp: KvResp)
    requires Inv(cfg, s) && Enabled(cfg, s, Harvest(c, resp))
    ensures var h, tsCall, tsResp := s.hist, s.memo[c].ts, s.timestamp + 1;
      && tsCall < tsResp
      && (h.queue != [] ==> h.queue[|h.queue| - 1].tsResp < tsResp)
      && (s.memo[c].update.Some? ==>
            var key := s.memo[c].update.value.key;
            && key in h.spans && c < |h.maxtr| && c < |h.spans[key]|
            && h.spans[key][c] != [] && h.spans[key][c][|h.spans[key][c]| - 1].tsResp < tsCall)
  {
    hide CountsOk, CheckedOk, PendingOk, VerdictsOk, MaxtrOk, CanGenerate;
    HarvestedNext(cfg, s, c, resp);
    if s.memo[c].update.Some? {
      KeyExpected(cfg, s, c, resp);
      var key := s.memo[c].update.value.key;
      FullSequential(s.log, key, c, s.memo[c].ts);
      assert SafeSuffix(s.hist.spans[key][c], FullSpans(s.log, key, c), MinOf(s.hist.maxtr), s.hist.queue);
    }
  }
}
