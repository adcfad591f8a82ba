/** The fuzzing loop itself, with random choices and client answers left arbitrary. */
module FuzzTest {
  import opened KvTypes
  import opened HistorySpec
  import opened HistoryChecker
  import opened FuzzMachine
  import opened FuzzInvariant
  import opened FuzzSafety
  import opened FuzzSchedule
  import opened FuzzTheorems

  /** Call or wait: forced when only one is possible, otherwise a coin toss. */
  method GenCallVsWait(called: nat, totalOps: nat, flying: seq<bool>) returns (b: bool)
    ensures b ==> called != totalOps && exists c :: 0 <= c < |flying| && !flying[c]
    ensures !b ==> called == totalOps || flying == [] || exists c :: 0 <= c < |flying| && flying[c]
    ensures b ==> MayCall(called, totalOps, flying)
    ensures !b ==> MayWait(called, totalOps, flying)
  {
    if called == totalOps || AllFlying(flying) {
      assert AllFlying(flying) && flying != [] ==> flying[0];
      b := false;
    } else if NoneFlying(flying) {
      b := true;
    } else {
      b := *;
    }
  }

  /** A call on keys of the pool; scan bounds are put in order. */
  method GenRandKvCall(keys: seq<string>) returns (call: KvCall)
    requires keys != []
    ensures CanGenerate(keys, call)
  {
    var kind: int, i: int, j: int :| 0 <= kind < 10 && 0 <= i < |keys| && 0 <= j < |keys|;
    var value: string := *;
    if kind <= 1 {
      call := Put(keys[i], value);
    } else if kind <= 3 {
      call := Swap(keys[i], value);
    } else if kind <= 6 {
      call := Get(keys[i]);
    } else if kind <= 8 {
      var lo, hi := keys[i], keys[j];
      if Less(hi, lo) {
        LessAsymmetric(hi, lo);
        lo, hi := hi, lo;
      }
      call := Scan(lo, hi);
    } else {
      call := Delete(keys[i]);
    }
  }

  /** The state an initialized run starts from, as the variables of the loop. */
  lemma {:induction false} Started(cfg: Config, h: HistoryState)
    requires ValidConfig(cfg)
    requires h.queue == [] && h.maxtr == seq(|cfg.keys|, _ => 0) && h.spans.Keys == Pool(cfg.keys)
    requires forall k :: k in h.spans ==> h.spans[k] == InitialSpans(|cfg.keys|)
    ensures Legal(cfg, []) && Run(cfg, []) == InitLoop(cfg) && h == Run(cfg, []).hist
  {
    assert h.spans == InitLoop(cfg).hist.spans;
  }

  lemma {:induction false} FlyingHasCall(cfg: Config, s: Loop, c: nat)
    requires Inv(cfg, s) && s.status == Running && c < |s.flying| && s.flying[c]
    ensures Formed(cfg, s) && s.inFlight[c].Some?
  {
  }

  /** At the end every operation is logged, and the queue holds the undecided ones. */
  lemma {:induction false} Remaining(cfg: Config, evs: seq<Event>)
    requires ValidConfig(cfg) && Legal(cfg, evs)
    requires Run(cfg, evs).status == Running && Run(cfg, evs).waited == cfg.totalOps
    ensures var s := Run(cfg, evs);
      |s.log| == cfg.totalOps && |s.hist.queue| == CountUndecided(cfg, s.log, cfg.totalOps)
  {
    hide Run, Legal, HistOk, LogOk, FlightsOk, CountUndecided, Undecided;
    RunInv(cfg, evs);
    PendingExact(cfg, evs);
  }

  /** The loop variables after a call and after a harmless harvest. */
  lemma {:induction false} StepEffect(cfg: Config, s: Loop, ev: Event)
    requires Inv(cfg, s) && Enabled(cfg, s, ev)
    ensures var s', c := Step(cfg, s, ev), ev.client;
      && (ev.Issue? ==>
            && s'.status == Running && s'.hist == s.hist
            && (s'.timestamp, s'.flying, s'.memo, s'.called, s'.waited) ==
               (s.timestamp + 1, s.flying[c := true], s.memo[c := Memo(s.timestamp + 1, UpdateInfo(ev.call))], s.called + 1, s.waited))
      && (ev.Harvest? && s'.status == Running ==>
            (s'.timestamp, s'.flying, s'.memo, s'.called, s'.waited) ==
            (s.timestamp + 1, s.flying[c := false], s.memo[c := Memo(0, None)], s.called, s.waited + 1))
      && (ev.Harvest? && ev.resp == StopResp ==> s'.status == Stopped)
  {
    hide Acknowledge, HistOk, FlightsOk, LogOk, CountsOk;
  }

  /** Queue the answer and, after an update, push, trim and check. */
  method Absorb(cfg: Config, ghost s: Loop, history: History, cidx: nat, m: Memo, timestamp: nat, resp: KvResp)
    returns (passed: bool)
    requires Inv(cfg, s) && Enabled(cfg, s, Harvest(cidx, resp)) && resp != StopResp
    requires history.Valid() && history.State() == s.hist
    requires m == s.memo[cidx] && timestamp == s.timestamp + 1
    modifies history
    ensures history.Valid() && history.State() == Step(cfg, s, Harvest(cidx, resp)).hist
    ensures passed <==> Step(cfg, s, Harvest(cidx, resp)).status == Running
    ensures !passed ==> Step(cfg, s, Harvest(cidx, resp)).status == Violated
  {
    hide LogOk, FlightsOk, CountsOk, MaxtrOk, SpansOk, QueueOk, CheckedOk, PendingOk, VerdictsOk, Acknowledge;
    ContractsMet(cfg, s, cidx, resp);
    history.AddToQueue(m.ts, timestamp, resp);
    match m.update {
      case None => passed := true;
      case Some(u) =>
        var bad := history.ApplyUpdate(cidx, m.ts, timestamp, u.key, u.value);
        passed := bad == None;
    }
  }

  /** Returns the number of answers that stayed undecided, or `None` if the run was cut short.
      `evs` records what happened; it is a run of the transition system. */
  method FuzzTest(cfg: Config) returns (result: Option<nat>, evs: seq<Event>)
    requires ValidConfig(cfg)
    ensures Legal(cfg, evs)
    ensures result.Some? ==>
      && Run(cfg, evs).status == Running && Run(cfg, evs).waited == cfg.totalOps
      && |evs| == 2 * cfg.totalOps && |Run(cfg, evs).log| == cfg.totalOps
      && result.value == CountUndecided(cfg, Run(cfg, evs).log, cfg.totalOps) == |Run(cfg, evs).hist.queue|
    ensures result == None ==> Run(cfg, evs).status == Violated || Run(cfg, evs).status == Stopped
  {
    hide Run, Legal, Inv, CanGenerate, MayCall, MayWait, Step, Shaped, Pool, UpdateInfo, CountUndecided;
    var n := |cfg.keys|;
    var flying := seq(n, _ => false);
    var timestamp := 0;
    var memo := seq(n, _ => Memo(0, None));
    var history := new History(n, cfg.keys);
    var called, waited, passed := 0, 0, true;
    evs := [];
    Started(cfg, history.State());

    while waited < cfg.totalOps
      invariant Legal(cfg, evs) && history.Valid()
      invariant var s := Run(cfg, evs);
        && s.status == Running
        && (timestamp, flying, memo, called, waited) == (s.timestamp, s.flying, s.memo, s.called, s.waited)
        && history.State() == s.hist
      invariant waited <= called <= cfg.totalOps && timestamp == called + waited
      decreases 2 * cfg.totalOps - timestamp
    {
      ghost var s := Run(cfg, evs);
      RunInv(cfg, evs);
      SchedulerNeverStarves(cfg, evs);
      timestamp := timestamp + 1;

      var toCall := GenCallVsWait(called, cfg.totalOps, flying);
      if toCall {
        var cidx :| 0 <= cidx < n && !flying[cidx];
        var call := GenRandKvCall(cfg.keys[cidx]);
        memo := memo[cidx := Memo(timestamp, UpdateInfo(call))];
        flying := flying[cidx := true];
        called := called + 1;
        StepEffect(cfg, s, Issue(cidx, call));
        RunExtend(cfg, evs, Issue(cidx, call));
        evs := evs + [Issue(cidx, call)];
      } else {
        var cidx :| 0 <= cidx < n && flying[cidx];
        FlyingHasCall(cfg, s, cidx);
        var resp: KvResp := *;
        StepEffect(cfg, s, Harvest(cidx, resp));
        RunExtend(cfg, evs, Harvest(cidx, resp));
        evs := evs + [Harvest(cidx, resp)];
        if resp == StopResp {
          passed := false;
          break;
        }
        var m := memo[cidx];
        memo := memo[cidx := Memo(0, None)];
        passed := Absorb(cfg, s, history, cidx, m, timestamp, resp);
        if !passed {
          break;
        }
        flying := flying[cidx := false];
        waited := waited + 1;
      }
      CountersExact(cfg, evs);
    }
    CountersExact(cfg, evs);
    if passed {
      Remaining(cfg, evs);
      var remaining := history.QueueLen();
      result := Some(remaining);
    } else {
      result := None;
    }
  }
}
