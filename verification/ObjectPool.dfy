/** The shared object pool, its clients and their asynchronous messages. */
module ObjectPool {
  import opened OrderingGraph

  datatype Request = Request(op: Operation, cli: nat, tsReq: int)

  datatype Response = Response(op: Operation, cli: nat, tsReq: int)

  /** What an operation returns on a pool. */
  function ReturnOf(op: Operation, pool: map<int, int>): int
    requires op.key in pool
  {
    if op.typ == OpWrite then 0 else pool[op.key]
  }

  function ResponseTo(req: Request, pool: map<int, int>): Response
    requires req.op.key in pool
  {
    Response(Operation(req.op.typ, req.op.key, 0, ReturnOf(req.op, pool)), req.cli, req.tsReq)
  }

  /** The service machine. */
  class Service {
    var pool: map<int, int>

    constructor (initialPool: map<int, int>)
      requires |initialPool| > 0
      ensures pool == initialPool
    {
      pool := initialPool;
    }

    /** One request is served on the pool as a single atomic operation. */
    method OnRequest(req: Request) returns (resp: Response)
      requires req.op.key in pool
      modifies this
      ensures pool == ApplyOpToPool(req.op, old(pool))
      ensures resp == ResponseTo(req, old(pool))
    {
      var retVal := 0;
      if req.op.typ == OpRead {
        retVal := pool[req.op.key];
      } else if req.op.typ == OpWrite {
        pool := pool[req.op.key := req.op.val];
      } else {
        retVal := pool[req.op.key];
        pool := pool[req.op.key := retVal + req.op.val];
      }
      resp := Response(Operation(req.op.typ, req.op.key, 0, retVal), req.cli, req.tsReq);
    }
  }

  // ---------- the whole system ----------

  datatype Config = Config(pool: map<int, int>, numKeys: nat, numReqs: seq<nat>)

  /** The pool holds the keys clients may ask for. */
  predicate ValidConfig(cfg: Config) {
    cfg.numKeys > 0 && forall k :: 0 <= k < cfg.numKeys ==> k in cfg.pool
  }

  /** A processed request, what it was answered, and the clock at that moment. */
  datatype Served = Served(req: Request, ret: int, at: int)

  /** A response under way, and which processed request it answers. */
  datatype Packet = Packet(resp: Response, slot: nat)

  /** A response a client has seen. */
  datatype Seen = Seen(op: Operation, cId: int, tsReq: int, tsResp: int)

  datatype Observed = Observed(seen: Seen, slot: nat)

  datatype System = System(
    pool: map<int, int>,
    clock: int,
    inbox: seq<Request>,
    outbox: seq<Packet>,
    waiting: seq<bool>,
    left: seq<int>,
    served: seq<Served>,
    observed: seq<Observed>)

  /** Messages are taken in any order; each clock reading is fresh. */
  datatype Action =
    | Send(cli: nat, op: Operation, ts: int)
    | Serve(i: nat)
    | Deliver(i: nat, ts: int)

  function Initial(cfg: Config): System {
    var n := |cfg.numReqs|;
    System(cfg.pool, 0, [], [], seq(n, _ => false), seq(n, i requires 0 <= i < n => cfg.numReqs[i]), [], [])
  }

  predicate Enabled(cfg: Config, s: System, a: Action) {
    match a
    case Send(c, op, ts) =>
      c < |s.waiting| && c < |s.left| && !s.waiting[c] && s.left[c] > 0 && KeyOk(cfg, op) && op.ret == 0 && s.clock < ts
    case Serve(i) =>
      i < |s.inbox| && s.inbox[i].op.key in s.pool
    case Deliver(i, ts) =>
      i < |s.outbox| && s.clock < ts && s.outbox[i].resp.cli < |s.waiting| && s.outbox[i].resp.cli < |s.left|
  }

  function Without<T>(s: seq<T>, i: nat): seq<T>
    requires i < |s|
  {
    s[..i] + s[i + 1..]
  }

  function Step(cfg: Config, s: System, a: Action): System
    requires Enabled(cfg, s, a)
  {
    match a
    case Send(c, op, ts) =>
      s.(clock := ts, inbox := s.inbox + [Request(op, c, ts)], waiting := s.waiting[c := true])
    case Serve(i) =>
      var req := s.inbox[i];
      s.(inbox := Without(s.inbox, i),
         pool := ApplyOpToPool(req.op, s.pool),
         outbox := s.outbox + [Packet(ResponseTo(req, s.pool), |s.served|)],
         served := s.served + [Served(req, ReturnOf(req.op, s.pool), s.clock)])
    case Deliver(i, ts) =>
      var p := s.outbox[i];
      s.(clock := ts,
         outbox := Without(s.outbox, i),
         waiting := s.waiting[p.resp.cli := false],
         left := s.left[p.resp.cli := s.left[p.resp.cli] - 1],
         observed := s.observed + [Observed(Seen(p.resp.op, p.resp.cli, p.resp.tsReq, ts), p.slot)])
  }

  ghost predicate Legal(cfg: Config, acts: seq<Action>)
    decreases |acts|, 0
  {
    acts == [] || (Legal(cfg, acts[..|acts| - 1]) && Enabled(cfg, Run(cfg, acts[..|acts| - 1]), acts[|acts| - 1]))
  }

  ghost function Run(cfg: Config, acts: seq<Action>): System
    requires Legal(cfg, acts)
    decreases |acts|, 1
  {
    if acts == [] then Initial(cfg) else Step(cfg, Run(cfg, acts[..|acts| - 1]), acts[|acts| - 1])
  }

  // ---------- sequential meaning ----------

  /** The pool after the first `n` processed requests, one after the other. */
  ghost function Replay(pool: map<int, int>, served: seq<Served>, n: nat): (r: map<int, int>)
    requires n <= |served| && forall i :: 0 <= i < |served| ==> served[i].req.op.key in pool
    ensures r.Keys == pool.Keys
  {
    if n == 0 then pool else ApplyOpToPool(served[n - 1].req.op, Replay(pool, served, n - 1))
  }

  lemma {:induction false} ReplayPrefix(pool: map<int, int>, served: seq<Served>, more: seq<Served>, n: nat)
    requires n <= |served| <= |more| && served == more[..|served|]
    requires forall i :: 0 <= i < |more| ==> more[i].req.op.key in pool
    ensures forall i :: 0 <= i < |served| ==> served[i].req.op.key in pool
    ensures Replay(pool, more, n) == Replay(pool, served, n)
  {
    assert forall i :: 0 <= i < |served| ==> served[i] == more[i];
    if n > 0 {
      ReplayPrefix(pool, served, more, n - 1);
    }
  }

  // ---------- the invariant ----------

  predicate KeyOk(cfg: Config, op: Operation) {
    0 <= op.key < cfg.numKeys
  }

  /** Processing order is a sequential execution of the requests, with these results. */
  ghost predicate ServedOk(cfg: Config, pool: map<int, int>, served: seq<Served>) {
    && (forall j :: 0 <= j < |served| ==> served[j].req.op.key in cfg.pool)
    && (forall j :: 0 <= j < |served| ==> served[j].ret == ReturnOf(served[j].req.op, Replay(cfg.pool, served, j)))
    && pool == Replay(cfg.pool, served, |served|)
  }

  ghost predicate TimesOk(cfg: Config, served: seq<Served>, clock: int) {
    && (forall j :: 0 <= j < |served| ==>
          KeyOk(cfg, served[j].req.op) && 0 < served[j].req.tsReq <= served[j].at <= clock)
    && (forall i, j :: 0 <= i < j < |served| ==> served[i].at <= served[j].at)
  }

  ghost predicate InboxOk(cfg: Config, inbox: seq<Request>, clock: int) {
    forall i :: 0 <= i < |inbox| ==>
      KeyOk(cfg, inbox[i].op) && inbox[i].cli < |cfg.numReqs| && 0 < inbox[i].tsReq <= clock
  }

  /** `op`, `cli` and `tsReq` are those of the answer to processed request `sv`. */
  predicate Answers(op: Operation, cli: int, tsReq: int, sv: Served) {
    op == Operation(sv.req.op.typ, sv.req.op.key, 0, sv.ret) && cli == sv.req.cli && tsReq == sv.req.tsReq
  }

  ghost predicate OutboxOk(cfg: Config, outbox: seq<Packet>, served: seq<Served>) {
    forall i :: 0 <= i < |outbox| ==>
      && outbox[i].slot < |served| && outbox[i].resp.cli < |cfg.numReqs|
      && Answers(outbox[i].resp.op, outbox[i].resp.cli, outbox[i].resp.tsReq, served[outbox[i].slot])
  }

  ghost predicate ObservedOk(observed: seq<Observed>, served: seq<Served>, clock: int) {
    && (forall i :: 0 <= i < |observed| ==>
          && observed[i].slot < |served|
          && Answers(observed[i].seen.op, observed[i].seen.cId, observed[i].seen.tsReq, served[observed[i].slot])
          && served[observed[i].slot].at < observed[i].seen.tsResp <= clock)
    && (forall i, j :: 0 <= i < j < |observed| ==> observed[i].seen.tsResp < observed[j].seen.tsResp)
  }

  function InboxClis(inbox: seq<Request>): seq<nat> {
    seq(|inbox|, i requires 0 <= i < |inbox| => inbox[i].cli)
  }

  function OutboxClis(outbox: seq<Packet>): seq<nat> {
    seq(|outbox|, i requires 0 <= i < |outbox| => outbox[i].resp.cli)
  }

  function OutboxSlots(outbox: seq<Packet>): seq<nat> {
    seq(|outbox|, i requires 0 <= i < |outbox| => outbox[i].slot)
  }

  function ObservedSlots(observed: seq<Observed>): seq<nat> {
    seq(|observed|, i requires 0 <= i < |observed| => observed[i].slot)
  }

  /** Clients with a message under way, with multiplicity. */
  ghost function Busy(inbox: seq<Request>, outbox: seq<Packet>): multiset<nat> {
    multiset(InboxClis(inbox)) + multiset(OutboxClis(outbox))
  }

  /** Processed requests with an answer under way or seen, with multiplicity. */
  ghost function Answered(outbox: seq<Packet>, observed: seq<Observed>): multiset<nat> {
    multiset(OutboxSlots(outbox)) + multiset(ObservedSlots(observed))
  }

  /** A client waits exactly while one message of its is under way. */
  ghost predicate ClientsOk(cfg: Config, waiting: seq<bool>, left: seq<int>, busy: multiset<nat>) {
    && |waiting| == |left| == |cfg.numReqs|
    && (forall c :: 0 <= c < |cfg.numReqs| ==> left[c] >= 0 && (waiting[c] ==> left[c] > 0))
    && (forall c :: 0 <= c < |cfg.numReqs| ==> busy[c] == if waiting[c] then 1 else 0)
  }

  /** Every processed request is answered exactly once. */
  ghost predicate OnceEach(answered: multiset<nat>, n: nat) {
    forall j: nat :: answered[j] == if j < n then 1 else 0
  }

  ghost predicate Inv(cfg: Config, s: System) {
    && s.clock >= 0
    && ServedOk(cfg, s.pool, s.served)
    && TimesOk(cfg, s.served, s.clock)
    && InboxOk(cfg, s.inbox, s.clock)
    && OutboxOk(cfg, s.outbox, s.served)
    && ObservedOk(s.observed, s.served, s.clock)
    && ClientsOk(cfg, s.waiting, s.left, Busy(s.inbox, s.outbox))
    && OnceEach(Answered(s.outbox, s.observed), |s.served|)
  }

  // ---------- every step keeps it ----------

  lemma {:induction false} WithoutMultiset<T>(s: seq<T>, i: nat)
    requires i < |s|
    ensures multiset(s) == multiset(Without(s, i)) + multiset{s[i]}
  {
    assert s == s[..i] + [s[i]] + s[i + 1..];
  }

  lemma {:induction false} InboxOut(inbox: seq<Request>, i: nat)
    requires i < |inbox|
    ensures multiset(InboxClis(inbox)) == multiset(InboxClis(Without(inbox, i))) + multiset{inbox[i].cli}
  {
    WithoutMultiset(InboxClis(inbox), i);
    assert InboxClis(Without(inbox, i)) == Without(InboxClis(inbox), i);
  }

  lemma {:induction false} OutboxOut(outbox: seq<Packet>, i: nat)
    requires i < |outbox|
    ensures multiset(OutboxClis(outbox)) == multiset(OutboxClis(Without(outbox, i))) + multiset{outbox[i].resp.cli}
    ensures multiset(OutboxSlots(outbox)) == multiset(OutboxSlots(Without(outbox, i))) + multiset{outbox[i].slot}
  {
    WithoutMultiset(OutboxClis(outbox), i);
    assert OutboxClis(Without(outbox, i)) == Without(OutboxClis(outbox), i);
    WithoutMultiset(OutboxSlots(outbox), i);
    assert OutboxSlots(Without(outbox, i)) == Without(OutboxSlots(outbox), i);
  }

  lemma {:induction false} InitServed(cfg: Config)
    ensures ServedOk(cfg, cfg.pool, [])
  {
  }

  lemma {:induction false} InitInv(cfg: Config)
    requires ValidConfig(cfg)
    ensures Inv(cfg, Initial(cfg))
  {
    hide ServedOk, Replay, Busy, Answered, OnceEach, ClientsOk;
    InitServed(cfg);
    NoMessages(cfg);
  }

  lemma {:induction false} NoMessages(cfg: Config)
    ensures OnceEach(Answered([], []), 0)
    ensures ClientsOk(cfg, Initial(cfg).waiting, Initial(cfg).left, Busy([], []))
  {
    assert InboxClis([]) == [] && OutboxClis([]) == [] && OutboxSlots([]) == [] && ObservedSlots([]) == [];
    assert Busy([], []) == multiset{} && Answered([], []) == multiset{};
  }

  lemma {:induction false} SendInv(cfg: Config, s: System, c: nat, op: Operation, ts: int)
    requires ValidConfig(cfg) && Inv(cfg, s) && Enabled(cfg, s, Send(c, op, ts))
    ensures Inv(cfg, Step(cfg, s, Send(c, op, ts)))
  {
    hide ServedOk;
    var s' := Step(cfg, s, Send(c, op, ts));
    assert InboxClis(s'.inbox) == InboxClis(s.inbox) + [c];
  }

  lemma {:induction false} ReplayLast(pool: map<int, int>, served: seq<Served>, n: nat)
    requires 0 < n <= |served| && forall i :: 0 <= i < |served| ==> served[i].req.op.key in pool
    ensures Replay(pool, served, n) == ApplyOpToPool(served[n - 1].req.op, Replay(pool, served, n - 1))
  {
  }

  /** Processing one more request extends the sequential execution. */
  lemma {:induction false} ServeServed(cfg: Config, pool: map<int, int>, served: seq<Served>, req: Request, at: int)
    requires ServedOk(cfg, pool, served) && req.op.key in cfg.pool && req.op.key in pool
    ensures ServedOk(cfg, ApplyOpToPool(req.op, pool), served + [Served(req, ReturnOf(req.op, pool), at)])
  {
    hide Replay, ApplyOpToPool, ReturnOf;
    var more := served + [Served(req, ReturnOf(req.op, pool), at)];
    forall j | 0 <= j <= |served|
      ensures Replay(cfg.pool, more, j) == Replay(cfg.pool, served, j)
    {
      ReplayPrefix(cfg.pool, served, more, j);
    }
    ReplayLast(cfg.pool, more, |more|);
    forall j | 0 <= j < |more|
      ensures more[j].ret == ReturnOf(more[j].req.op, Replay(cfg.pool, more, j))
    {
      if j < |served| {
        assert more[j] == served[j];
      }
    }
  }

  lemma {:induction false} ServeMessages(cfg: Config, s: System, req: Request, p: Packet, sv: Served)
    requires TimesOk(cfg, s.served, s.clock) && OutboxOk(cfg, s.outbox, s.served) && ObservedOk(s.observed, s.served, s.clock)
    requires KeyOk(cfg, req.op) && req.cli < |cfg.numReqs| && 0 < req.tsReq <= s.clock
    requires sv.req == req && sv.at == s.clock
    requires p.slot == |s.served| && Answers(p.resp.op, p.resp.cli, p.resp.tsReq, sv)
    ensures TimesOk(cfg, s.served + [sv], s.clock)
    ensures OutboxOk(cfg, s.outbox + [p], s.served + [sv])
    ensures ObservedOk(s.observed, s.served + [sv], s.clock)
  {
  }

  lemma {:induction false} ServeCounts(cfg: Config, s: System, i: nat, p: Packet)
    requires i < |s.inbox| && p.resp.cli == s.inbox[i].cli && p.slot == |s.served|
    ensures Busy(Without(s.inbox, i), s.outbox + [p]) == Busy(s.inbox, s.outbox)
    ensures OnceEach(Answered(s.outbox, s.observed), |s.served|) ==>
      OnceEach(Answered(s.outbox + [p], s.observed), |s.served| + 1)
  {
    InboxOut(s.inbox, i);
    assert OutboxClis(s.outbox + [p]) == OutboxClis(s.outbox) + [p.resp.cli];
    assert OutboxSlots(s.outbox + [p]) == OutboxSlots(s.outbox) + [p.slot];
    assert Answered(s.outbox + [p], s.observed) == Answered(s.outbox, s.observed) + multiset{p.slot};
    if OnceEach(Answered(s.outbox, s.observed), |s.served|) {
      OneMore(Answered(s.outbox, s.observed), |s.served|);
    }
  }

  lemma {:induction false} OneMore(answered: multiset<nat>, n: nat)
    requires OnceEach(answered, n)
    ensures OnceEach(answered + multiset{n}, n + 1)
  {
    forall j: nat
      ensures (answered + multiset{n})[j] == if j < n + 1 then 1 else 0
    {
      assert answered[j] == if j < n then 1 else 0;
    }
  }

  lemma {:induction false} ServeInv(cfg: Config, s: System, i: nat)
    requires ValidConfig(cfg) && Inv(cfg, s) && Enabled(cfg, s, Serve(i))
    ensures Inv(cfg, Step(cfg, s, Serve(i)))
  {
    hide ServedOk, TimesOk, OutboxOk, ObservedOk, ClientsOk, OnceEach, Busy, Answered, Replay;
    var req := s.inbox[i];
    assert KeyOk(cfg, req.op);
    ServeServed(cfg, s.pool, s.served, req, s.clock);
    var p := Packet(ResponseTo(req, s.pool), |s.served|);
    ServeMessages(cfg, s, req, p, Served(req, ReturnOf(req.op, s.pool), s.clock));
    ServeCounts(cfg, s, i, p);
  }

  lemma {:induction false} DeliverMessages(cfg: Config, s: System, i: nat, ts: int)
    requires TimesOk(cfg, s.served, s.clock) && InboxOk(cfg, s.inbox, s.clock) && s.clock < ts && i < |s.outbox|
    requires OutboxOk(cfg, s.outbox, s.served) && ObservedOk(s.observed, s.served, s.clock)
    ensures TimesOk(cfg, s.served, ts) && InboxOk(cfg, s.inbox, ts)
    ensures OutboxOk(cfg, Without(s.outbox, i), s.served)
    ensures var r := s.outbox[i].resp;
      ObservedOk(s.observed + [Observed(Seen(r.op, r.cli, r.tsReq, ts), s.outbox[i].slot)], s.served, ts)
  {
  }

  lemma {:induction false} DeliverCounts(cfg: Config, s: System, i: nat, o: Observed)
    requires i < |s.outbox| && s.outbox[i].resp.cli < |cfg.numReqs| && o.slot == s.outbox[i].slot
    requires ClientsOk(cfg, s.waiting, s.left, Busy(s.inbox, s.outbox))
    ensures var c := s.outbox[i].resp.cli;
      ClientsOk(cfg, s.waiting[c := false], s.left[c := s.left[c] - 1], Busy(s.inbox, Without(s.outbox, i)))
    ensures Answered(Without(s.outbox, i), s.observed + [o]) == Answered(s.outbox, s.observed)
  {
    OutboxOut(s.outbox, i);
    assert ObservedSlots(s.observed + [o]) == ObservedSlots(s.observed) + [o.slot];
    assert Busy(s.inbox, s.outbox) == Busy(s.inbox, Without(s.outbox, i)) + multiset{s.outbox[i].resp.cli};
  }

  lemma {:induction false} DeliverInv(cfg: Config, s: System, i: nat, ts: int)
    requires ValidConfig(cfg) && Inv(cfg, s) && Enabled(cfg, s, Deliver(i, ts))
    ensures Inv(cfg, Step(cfg, s, Deliver(i, ts)))
  {
    hide ServedOk, TimesOk, InboxOk, ObservedOk, ClientsOk, OnceEach, Busy, Answered, Replay;
    var p := s.outbox[i];
    assert p.resp.cli < |cfg.numReqs|;
    DeliverMessages(cfg, s, i, ts);
    DeliverCounts(cfg, s, i, Observed(Seen(p.resp.op, p.resp.cli, p.resp.tsReq, ts), p.slot));
  }

  lemma {:induction false} RunInv(cfg: Config, acts: seq<Action>)
    requires ValidConfig(cfg) && Legal(cfg, acts)
    ensures Inv(cfg, Run(cfg, acts))
  {
    if acts == [] {
      InitInv(cfg);
    } else {
      hide Inv;
      RunInv(cfg, acts[..|acts| - 1]);
      var s := Run(cfg, acts[..|acts| - 1]);
      match acts[|acts| - 1]
      case Send(c, op, ts) => SendInv(cfg, s, c, op, ts);
      case Serve(i) => ServeInv(cfg, s, i);
      case Deliver(i, ts) => DeliverInv(cfg, s, i, ts);
    }
  }

  // ---------- results over all runs ----------

  /** The assertions in the service and the clients never fire: a request's key is in the
      pool, a response finds its client waiting and asks for a key it may ask for. */
  lemma {:induction false} AssertionsNeverFire(cfg: Config, acts: seq<Action>)
    requires ValidConfig(cfg) && Legal(cfg, acts)
    ensures var s := Run(cfg, acts);
      && (forall i :: 0 <= i < |s.inbox| ==> s.inbox[i].op.key in s.pool)
      && (forall i :: 0 <= i < |s.outbox| ==>
            && s.outbox[i].resp.cli < |s.waiting| == |s.left| && s.waiting[s.outbox[i].resp.cli]
            && s.left[s.outbox[i].resp.cli] > 0 && 0 <= s.outbox[i].resp.op.key < cfg.numKeys)
      && (forall c :: 0 <= c < |s.left| ==> s.left[c] >= 0)
  {
    hide Run, Legal;
    RunInv(cfg, acts);
    var s := Run(cfg, acts);
    forall i | 0 <= i < |s.outbox|
      ensures s.outbox[i].resp.cli < |s.waiting| && s.waiting[s.outbox[i].resp.cli]
    {
      OutboxOut(s.outbox, i);
    }
  }

  /** The service is linearizable: the order in which requests were processed is a legal
      sequential execution on the initial pool, giving each client exactly the value it
      saw; each processed request is seen at most once; and a response seen before
      another request was made belongs to an earlier place in that order. */
  lemma {:induction false} ServiceLinearizable(cfg: Config, acts: seq<Action>)
    requires ValidConfig(cfg) && Legal(cfg, acts)
    ensures var s := Run(cfg, acts);
      && (forall j :: 0 <= j < |s.served| ==> s.served[j].req.op.key in cfg.pool)
      && s.pool == Replay(cfg.pool, s.served, |s.served|)
      && (forall i :: 0 <= i < |s.observed| ==>
            var o := s.observed[i];
            && o.slot < |s.served|
            && o.seen.cId == s.served[o.slot].req.cli && o.seen.tsReq == s.served[o.slot].req.tsReq
            && o.seen.op.typ == s.served[o.slot].req.op.typ && o.seen.op.key == s.served[o.slot].req.op.key
            && o.seen.op.ret == ReturnOf(s.served[o.slot].req.op, Replay(cfg.pool, s.served, o.slot)))
      && (forall i, j :: 0 <= i < j < |s.observed| ==> s.observed[i].slot != s.observed[j].slot)
      && (forall i, j :: 0 <= i < |s.observed| && 0 <= j < |s.served| ==>
            (s.observed[i].seen.tsResp < s.served[j].req.tsReq ==> s.observed[i].slot < j))
  {
    hide Run, Legal, Replay;
    RunInv(cfg, acts);
    var s := Run(cfg, acts);
    forall i, j | 0 <= i < j < |s.observed|
      ensures s.observed[i].slot != s.observed[j].slot
    {
      SeenOnce(s.outbox, s.observed, |s.served|, i, j);
    }
    forall i, j | 0 <= i < |s.observed| && 0 <= j < |s.served| && s.observed[i].seen.tsResp < s.served[j].req.tsReq
      ensures s.observed[i].slot < j
    {
      var k := s.observed[i].slot;
      assert s.served[k].at < s.served[j].at;
    }
  }

  lemma {:induction false} SeenOnce(outbox: seq<Packet>, observed: seq<Observed>, n: nat, i: nat, j: nat)
    requires OnceEach(Answered(outbox, observed), n) && i < j < |observed|
    ensures observed[i].slot != observed[j].slot
  {
    var slots := ObservedSlots(observed);
    WithoutMultiset(slots, j);
    assert Without(slots, j)[i] == slots[i];
    assert slots[i] in multiset(Without(slots, j));
    assert Answered(outbox, observed)[slots[j]] <= 1;
  }

  /** The system allows what the machines can do: a client that is not waiting and has
      requests left may send any operation on its keys, the service may take any message
      sent to it, and any answer under way may arrive. */
  lemma {:induction false} EveryChoice(cfg: Config, acts: seq<Action>, ts: int, c: nat, op: Operation, i: nat)
    requires ValidConfig(cfg) && Legal(cfg, acts) && Run(cfg, acts).clock < ts && c < |cfg.numReqs|
    ensures var s := Run(cfg, acts);
      && |s.waiting| == |s.left| == |cfg.numReqs|
      && (!s.waiting[c] && s.left[c] > 0 && 0 <= op.key < cfg.numKeys && op.ret == 0 ==> Legal(cfg, acts + [Send(c, op, ts)]))
      && (i < |s.inbox| ==> Legal(cfg, acts + [Serve(i)]))
      && (i < |s.outbox| ==> Legal(cfg, acts + [Deliver(i, ts)]))
  {
    AssertionsNeverFire(cfg, acts);
    RunInv(cfg, acts);
    hide Run, Legal;
    var s := Run(cfg, acts);
    WidthOk(cfg, s);
    hide Inv;
    if !s.waiting[c] && s.left[c] > 0 && 0 <= op.key < cfg.numKeys && op.ret == 0 {
      Extend(cfg, acts, Send(c, op, ts));
    }
    if i < |s.inbox| {
      Extend(cfg, acts, Serve(i));
    }
    if i < |s.outbox| {
      Extend(cfg, acts, Deliver(i, ts));
    }
  }

  lemma {:induction false} Extend(cfg: Config, acts: seq<Action>, a: Action)
    requires Legal(cfg, acts) && Enabled(cfg, Run(cfg, acts), a)
    ensures Legal(cfg, acts + [a])
  {
    assert (acts + [a])[..|acts|] == acts;
  }

  lemma {:induction false} WidthOk(cfg: Config, s: System)
    requires Inv(cfg, s)
    ensures |s.waiting| == |s.left| == |cfg.numReqs|
  {
  }

  /** No run gets stuck: while a client has requests left, something can happen. */
  lemma {:induction false} NeverStuck(cfg: Config, acts: seq<Action>, c: nat) returns (a: Action)
    requires ValidConfig(cfg) && Legal(cfg, acts) && c < |cfg.numReqs|
    requires |Run(cfg, acts).left| == |cfg.numReqs| && Run(cfg, acts).left[c] > 0
    ensures Legal(cfg, acts + [a])
  {
    RunInv(cfg, acts);
    hide Run, Legal;
    var s := Run(cfg, acts);
    var read := Operation(OpRead, 0, 0, 0);
    EveryChoice(cfg, acts, s.clock + 1, c, read, 0);
    if !s.waiting[c] {
      a := Send(c, read, s.clock + 1);
    } else {
      OneUnderWay(cfg, s, c);
      a := if s.inbox != [] then Serve(0) else Deliver(0, s.clock + 1);
    }
  }

  lemma {:induction false} OneUnderWay(cfg: Config, s: System, c: nat)
    requires Inv(cfg, s) && c < |cfg.numReqs| == |s.waiting| && s.waiting[c]
    ensures s.inbox != [] || s.outbox != []
  {
    NoneBusy();
    assert Busy(s.inbox, s.outbox)[c] == 1;
  }

  lemma {:induction false} NoneBusy()
    ensures Busy([], []) == multiset{}
  {
    assert InboxClis([]) == [] && OutboxClis([]) == [];
  }

  /** How many responses client `c` has seen. */
  function SeenBy(observed: seq<Observed>, c: int): nat {
    if observed == [] then 0
    else SeenBy(observed[..|observed| - 1], c) + if observed[|observed| - 1].seen.cId == c then 1 else 0
  }

  /** Conservation: what a client has seen and what it has left add up to its requests. */
  lemma {:induction false} RequestsConserved(cfg: Config, acts: seq<Action>, c: nat)
    requires ValidConfig(cfg) && Legal(cfg, acts) && c < |cfg.numReqs|
    ensures var s := Run(cfg, acts);
      |s.left| == |cfg.numReqs| && SeenBy(s.observed, c) + s.left[c] == cfg.numReqs[c] && s.left[c] >= 0
  {
    RunInv(cfg, acts);
    LeftOk(cfg, Run(cfg, acts), c);
    if acts != [] {
      hide Inv, Step, Enabled;
      RequestsConserved(cfg, acts[..|acts| - 1], c);
      StepConserves(cfg, Run(cfg, acts[..|acts| - 1]), acts[|acts| - 1], c);
    }
  }

  lemma {:induction false} StepConserves(cfg: Config, s: System, a: Action, c: nat)
    requires Enabled(cfg, s, a) && c < |s.left|
    ensures var s' := Step(cfg, s, a);
      |s'.left| == |s.left| && SeenBy(s'.observed, c) + s'.left[c] == SeenBy(s.observed, c) + s.left[c]
  {
    hide ApplyOpToPool, ReturnOf, ResponseTo, Without;
    if a.Deliver? {
      var s' := Step(cfg, s, a);
      assert s'.observed[..|s'.observed| - 1] == s.observed;
    }
  }

  lemma {:induction false} LeftOk(cfg: Config, s: System, c: nat)
    requires Inv(cfg, s) && c < |cfg.numReqs|
    ensures |s.left| == |cfg.numReqs| && s.left[c] >= 0
  {
  }
}
