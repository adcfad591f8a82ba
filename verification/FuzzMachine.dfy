/** The fuzzing loop as a transition system: calls and harvests in any order the
    scheduler allows, with arbitrary answers. Beside the loop's own variables a state
    records the complete log of answered operations and every verdict handed out. */
module FuzzMachine {
  import opened KvTypes
  import opened HistorySpec

  datatype Config = Config(keys: seq<seq<string>>, totalOps: nat)

  /** At least one client, and every client has a key to touch. */
  predicate ValidConfig(cfg: Config) {
    |cfg.keys| > 0 && forall c :: 0 <= c < |cfg.keys| ==> cfg.keys[c] != []
  }

  datatype Memo = Memo(ts: nat, update: Option<Update>)

  datatype Record = Record(client: nat, call: KvCall, tsCall: nat, tsResp: nat, resp: KvResp)

  datatype Status = Running | Violated | Stopped | BadKey

  datatype Loop = Loop(
    timestamp: nat,
    flying: seq<bool>,
    memo: seq<Memo>,
    hist: HistoryState,
    called: nat,
    waited: nat,
    status: Status,
    inFlight: seq<Option<KvCall>>,
    log: seq<Record>,
    verdicts: seq<bool>)

  datatype Event = Issue(client: nat, call: KvCall) | Harvest(client: nat, resp: KvResp)

  // ---------- the scheduler ----------

  predicate AllFlying(flying: seq<bool>) {
    forall c :: 0 <= c < |flying| ==> flying[c]
  }

  predicate NoneFlying(flying: seq<bool>) {
    forall c :: 0 <= c < |flying| ==> !flying[c]
  }

  predicate MayCall(called: nat, totalOps: nat, flying: seq<bool>) {
    called != totalOps && !AllFlying(flying)
  }

  predicate MayWait(called: nat, totalOps: nat, flying: seq<bool>) {
    called == totalOps || AllFlying(flying) || !NoneFlying(flying)
  }

  /** Calls the generator can draw for a client owning `keys`. */
  predicate CanGenerate(keys: seq<string>, call: KvCall) {
    match call
    case Put(k, _) => k in keys
    case Swap(k, _) => k in keys
    case Get(k) => k in keys
    case Scan(lo, hi) => lo in keys && hi in keys && !Less(hi, lo)
    case Delete(k) => k in keys
    case Stop => false
  }

  // ---------- states and steps ----------

  ghost predicate Formed(cfg: Config, s: Loop) {
    && |s.flying| == |s.memo| == |s.inFlight| == |s.hist.maxtr| == |cfg.keys|
    && s.hist.spans.Keys == Pool(cfg.keys)
    && Shaped(s.hist)
  }

  ghost function InitLoop(cfg: Config): (s: Loop)
    ensures Formed(cfg, s)
  {
    var n := |cfg.keys|;
    Loop(0, seq(n, _ => false), seq(n, _ => Memo(0, None)),
         HistoryState([], map k | k in Pool(cfg.keys) :: InitialSpans(n), seq(n, _ => 0)),
         0, 0, Running, seq(n, _ => None), [], [])
  }

  ghost predicate Enabled(cfg: Config, s: Loop, ev: Event)
    requires Formed(cfg, s)
  {
    && s.status == Running
    && s.waited < cfg.totalOps
    && ev.client < |cfg.keys|
    && match ev
       case Issue(c, call) =>
         MayCall(s.called, cfg.totalOps, s.flying) && !s.flying[c] && CanGenerate(cfg.keys[c], call)
       case Harvest(c, _) =>
         MayWait(s.called, cfg.totalOps, s.flying) && s.flying[c] && s.inFlight[c].Some?
  }

  function RecordOf(s: Loop, c: nat, resp: KvResp): Record
    requires c < |s.memo| && c < |s.inFlight| && s.inFlight[c].Some?
  {
    Record(c, s.inFlight[c].value, s.memo[c].ts, s.timestamp + 1, resp)
  }

  /** The variables after a harvest that found nothing wrong. */
  function Landed(s: Loop, c: nat): Loop
    requires c < |s.flying|
  {
    s.(flying := s.flying[c := false], waited := s.waited + 1)
  }

  /** A response was queued and the call memo taken. */
  function Queued(s: Loop, c: nat, resp: KvResp): Loop
    requires c < |s.memo| && c < |s.inFlight| && s.inFlight[c].Some?
  {
    var r := RecordOf(s, c, resp);
    s.(timestamp := s.timestamp + 1,
       memo := s.memo[c := Memo(0, None)],
       inFlight := s.inFlight[c := None],
       hist := Enqueue(s.hist, r.tsCall, r.tsResp, r.resp),
       log := s.log + [r])
  }

  ghost function Step(cfg: Config, s: Loop, ev: Event): (s': Loop)
    requires Formed(cfg, s) && Enabled(cfg, s, ev)
    ensures Formed(cfg, s')
  {
    match ev
    case Issue(c, call) =>
      s.(timestamp := s.timestamp + 1,
         memo := s.memo[c := Memo(s.timestamp + 1, UpdateInfo(call))],
         inFlight := s.inFlight[c := Some(call)],
         flying := s.flying[c := true],
         called := s.called + 1)
    case Harvest(c, resp) =>
      if resp == StopResp then s.(timestamp := s.timestamp + 1, status := Stopped)
      else
        var q := Queued(s, c, resp);
        match s.memo[c].update
        case None => Landed(q, c)
        case Some(u) =>
          if u.key !in q.hist.spans then q.(status := BadKey)
          else
            var (hist, verdicts) := Acknowledge(q.hist, c, s.memo[c].ts, s.timestamp + 1, u.key, u.value);
            var a := q.(hist := hist, verdicts := s.verdicts + verdicts);
            if verdicts != [] && !verdicts[|verdicts| - 1] then a.(status := Violated) else Landed(a, c)
  }

  // ---------- runs ----------

  /** Every event was enabled when it happened. */
  ghost predicate Legal(cfg: Config, evs: seq<Event>)
    decreases |evs|, 0
  {
    evs == [] || (Legal(cfg, evs[..|evs| - 1]) && Enabled(cfg, Run(cfg, evs[..|evs| - 1]), evs[|evs| - 1]))
  }

  ghost function Run(cfg: Config, evs: seq<Event>): (s: Loop)
    requires Legal(cfg, evs)
    ensures Formed(cfg, s)
    decreases |evs|, 1
  {
    if evs == [] then InitLoop(cfg) else Step(cfg, Run(cfg, evs[..|evs| - 1]), evs[|evs| - 1])
  }

  lemma {:induction false} RunExtend(cfg: Config, evs: seq<Event>, ev: Event)
    requires Legal(cfg, evs) && Enabled(cfg, Run(cfg, evs), ev)
    ensures Legal(cfg, evs + [ev]) && Run(cfg, evs + [ev]) == Step(cfg, Run(cfg, evs), ev)
  {
    assert (evs + [ev])[..|evs|] == evs;
  }
}
