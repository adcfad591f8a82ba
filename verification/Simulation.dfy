/** The test driver's composition of service, clients and monitor, run to the end of
    any schedule. */
module Simulation {
  import opened OrderingGraph
  import opened ObjectPool
  import opened Linearizable
  import Monitor

  lemma {:induction false} LegalPrefix(cfg: Config, acts: seq<Action>, n: nat)
    requires Legal(cfg, acts) && n <= |acts|
    ensures Legal(cfg, acts[..n])
  {
    if n == |acts| {
      assert acts[..n] == acts;
    } else {
      assert acts[..|acts| - 1][..n] == acts[..n];
      LegalPrefix(cfg, acts[..|acts| - 1], n);
    }
  }

  lemma {:induction false} NextAction(cfg: Config, acts: seq<Action>, n: nat)
    requires Legal(cfg, acts) && n < |acts|
    ensures Legal(cfg, acts[..n]) && Legal(cfg, acts[..n + 1])
    ensures Enabled(cfg, Run(cfg, acts[..n]), acts[n])
    ensures Run(cfg, acts[..n + 1]) == Step(cfg, Run(cfg, acts[..n]), acts[n])
  {
    LegalPrefix(cfg, acts, n + 1);
    assert acts[..n + 1][..n] == acts[..n];
  }

  lemma {:induction false} PoolNotEmpty(cfg: Config)
    requires ValidConfig(cfg)
    ensures |cfg.pool| > 0
  {
    assert 0 in cfg.pool;
  }

  /** Delivering a response announces it, in order and on time. */
  lemma {:induction false} DeliverAnnounces(cfg: Config, acts: seq<Action>, i: nat, ts: int)
    requires ValidConfig(cfg) && Legal(cfg, acts) && Enabled(cfg, Run(cfg, acts), Deliver(i, ts))
    ensures var s := Run(cfg, acts); var s' := Step(cfg, s, Deliver(i, ts)); var r := s.outbox[i].resp;
      && Monitor.Announced(s') == Monitor.Announced(s) + [Seen(r.op, r.cli, r.tsReq, ts)]
      && r.op.key in cfg.pool && Monitor.OnTime(Monitor.Announced(s'))
  {
    hide Run, Legal, Inv;
    RunInv(cfg, acts);
    var s := Run(cfg, acts);
    DeliverInv(cfg, s, i, ts);
    var s' := Step(cfg, s, Deliver(i, ts));
    var seen := Monitor.Announced(s');
    assert seen == Monitor.Announced(s) + [seen[|s.observed|]];
    assert seen[..|s'.observed|] == seen;
    Monitor.AnnouncedOk(cfg, s', |s'.observed|);
    Monitor.InOrderOnTime(seen);
    assert seen[|s.observed|].op == s.outbox[i].resp.op;
  }

  /** The service and the monitor follow the system's run under every schedule, and
      every assertion of the monitor passes. */
  method Simulate(cfg: Config, acts: seq<Action>) returns (s: System, verdicts: seq<Verdict>)
    requires ValidConfig(cfg) && Legal(cfg, acts)
    ensures s == Run(cfg, acts)
    ensures |verdicts| == |s.observed|
    ensures forall i :: 0 <= i < |verdicts| ==> verdicts[i] == Passes
  {
    hide Run, Legal, Inv, Monitor.OnTime, Monitor.IsHistory, Monitor.KeysIn, ApplyOpToPool;
    PoolNotEmpty(cfg);
    var service := new Service(cfg.pool);
    var monitor := new Monitor.Spec(cfg.pool);
    s, verdicts := Initial(cfg), [];
    RunStart(cfg, acts);
    for n := 0 to |acts|
      invariant Legal(cfg, acts[..n]) && s == Run(cfg, acts[..n])
      invariant service.pool == s.pool
      invariant monitor.Valid() && monitor.initialPool == cfg.pool && monitor.seen == Monitor.Announced(s)
      invariant |verdicts| == |s.observed|
      invariant forall i :: 0 <= i < |verdicts| ==> verdicts[i] == Passes
    {
      NextAction(cfg, acts, n);
      match acts[n]
      case Send(c, op, ts) =>
        s := s.(clock := ts, inbox := s.inbox + [Request(op, c, ts)], waiting := s.waiting[c := true]);
      case Serve(i) =>
        var req := s.inbox[i];
        var resp := service.OnRequest(req);
        s := s.(inbox := Without(s.inbox, i),
                pool := service.pool,
                outbox := s.outbox + [Packet(resp, |s.served|)],
                served := s.served + [Served(req, resp.op.ret, s.clock)]);
      case Deliver(i, ts) =>
        DeliverAnnounces(cfg, acts[..n], i, ts);
        var resp := s.outbox[i].resp;
        var seen := Seen(resp.op, resp.cli, resp.tsReq, ts);
        var v := monitor.OnClientSeesResponse(seen);
        verdicts := verdicts + [v];
        s := s.(clock := ts,
                outbox := Without(s.outbox, i),
                waiting := s.waiting[resp.cli := false],
                left := s.left[resp.cli := s.left[resp.cli] - 1],
                observed := s.observed + [Observed(seen, s.outbox[i].slot)]);
    }
    assert acts[..|acts|] == acts;
  }

  lemma {:induction false} RunStart(cfg: Config, acts: seq<Action>)
    ensures Legal(cfg, acts[..0]) && Run(cfg, acts[..0]) == Initial(cfg)
    ensures Monitor.Announced(Initial(cfg)) == []
  {
    assert acts[..0] == [];
  }
}
