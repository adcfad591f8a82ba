/** The pool the monitor replays from the answers, and when it is the service's pool. */
module MonitorPool {
  import opened OrderingGraph
  import opened ObjectPool
  import Monitor

  // ---------- the monitor's pool ----------

  ghost predicate SeenWrite(seen: seq<Seen>, n: nat, k: int)
    requires n <= |seen|
  {
    exists i :: 0 <= i < n && seen[i].op.typ == OpWrite && seen[i].op.key == k
  }

  /** Answers carry no value, so writes reset their key and additions change nothing. */
  lemma {:induction false} PoolExact(pool: map<int, int>, seen: seq<Seen>, n: nat, k: int)
    requires Monitor.KeysIn(pool, seen) && n <= |seen| && k in pool
    requires forall i :: 0 <= i < |seen| ==> seen[i].op.val == 0
    ensures Monitor.PoolAfter(pool, seen, n)[k] == if SeenWrite(seen, n, k) then 0 else pool[k]
  {
    if n > 0 {
      PoolExact(pool, seen, n - 1, k);
      var op := seen[n - 1].op;
      assert SeenWrite(seen, n, k) <==> SeenWrite(seen, n - 1, k) || (op.typ == OpWrite && op.key == k);
    }
  }

  lemma {:induction false} AnnouncedBlank(cfg: Config, s: System)
    requires ValidConfig(cfg) && Inv(cfg, s)
    ensures Monitor.KeysIn(cfg.pool, Monitor.Announced(s))
    ensures forall i :: 0 <= i < |Monitor.Announced(s)| ==> Monitor.Announced(s)[i].op.val == 0
  {
    hide ServedOk, Replay, OnceEach, ClientsOk, InboxOk, OutboxOk;
    var seen := Monitor.Announced(s);
    Monitor.AnnouncedOk(cfg, s, |s.observed|);
    assert seen[..|s.observed|] == seen;
    forall i | 0 <= i < |seen|
      ensures seen[i].op.val == 0
    {
      assert seen[i] == s.observed[i].seen;
    }
  }

  /** In every run, the monitor's pool holds 0 for the keys some announced response
      wrote, and the initial value for all others. */
  lemma {:induction false} MonitorPoolExact(cfg: Config, acts: seq<Action>, n: nat, k: int)
    requires ValidConfig(cfg) && Legal(cfg, acts) && n <= |Run(cfg, acts).observed| && k in cfg.pool
    ensures var seen := Monitor.Announced(Run(cfg, acts));
      && Monitor.KeysIn(cfg.pool, seen)
      && Monitor.PoolAfter(cfg.pool, seen, n)[k] == if SeenWrite(seen, n, k) then 0 else cfg.pool[k]
  {
    hide Run, Legal, Inv;
    RunInv(cfg, acts);
    var s := Run(cfg, acts);
    AnnouncedBlank(cfg, s);
    PoolExact(cfg.pool, Monitor.Announced(s), n, k);
  }

  // ---------- the service's pool ----------

  ghost predicate Written(served: seq<Served>, n: nat, k: int)
    requires n <= |served|
  {
    exists i :: 0 <= i < n && served[i].req.op.typ == OpWrite && served[i].req.op.key == k
  }

  /** The value last written to `k`, 0 if none was, plus all that was added since. */
  ghost function Net(served: seq<Served>, n: nat, k: int): int
    requires n <= |served|
  {
    if n == 0 then 0
    else
      var op := served[n - 1].req.op;
      if op.key != k || op.typ == OpRead then Net(served, n - 1, k)
      else if op.typ == OpWrite then op.val
      else Net(served, n - 1, k) + op.val
  }

  lemma {:induction false} ReplayExact(pool: map<int, int>, served: seq<Served>, n: nat, k: int)
    requires n <= |served| && k in pool && forall i :: 0 <= i < |served| ==> served[i].req.op.key in pool
    ensures Replay(pool, served, n)[k] == (if Written(served, n, k) then 0 else pool[k]) + Net(served, n, k)
  {
    if n > 0 {
      ReplayExact(pool, served, n - 1, k);
      var op := served[n - 1].req.op;
      assert Written(served, n, k) <==> Written(served, n - 1, k) || (op.typ == OpWrite && op.key == k);
    }
  }

  /** What the service returned: a read or a read-add-write gets the value last written
      before it, or the initial one, plus all that was added since; a write gets 0. */
  lemma {:induction false} ReturnsExact(cfg: Config, acts: seq<Action>)
    requires ValidConfig(cfg) && Legal(cfg, acts)
    ensures var s := Run(cfg, acts);
      && (forall j :: 0 <= j < |s.served| ==>
            var op := s.served[j].req.op;
            && op.key in cfg.pool
            && s.served[j].ret ==
               if op.typ == OpWrite then 0
               else (if Written(s.served, j, op.key) then 0 else cfg.pool[op.key]) + Net(s.served, j, op.key))
      && (forall i :: 0 <= i < |s.observed| ==>
            && s.observed[i].slot < |s.served|
            && s.observed[i].seen.op.ret == s.served[s.observed[i].slot].ret)
  {
    hide Run, Legal, TimesOk, InboxOk, OutboxOk, ClientsOk, OnceEach, Replay, Net, Written;
    RunInv(cfg, acts);
    var s := Run(cfg, acts);
    forall j | 0 <= j < |s.served|
      ensures var op := s.served[j].req.op;
        && op.key in cfg.pool
        && s.served[j].ret ==
           if op.typ == OpWrite then 0
           else (if Written(s.served, j, op.key) then 0 else cfg.pool[op.key]) + Net(s.served, j, op.key)
    {
      ReplayExact(cfg.pool, s.served, j, s.served[j].req.op.key);
    }
  }

  // ---------- agreement ----------

  /** With no answer under way, every processed request has been seen. */
  lemma {:induction false} AllSeen(s: System, j: nat) returns (i: nat)
    requires OnceEach(Answered(s.outbox, s.observed), |s.served|) && s.outbox == [] && j < |s.served|
    ensures i < |s.observed| && s.observed[i].slot == j
  {
    var slots := ObservedSlots(s.observed);
    assert OutboxSlots(s.outbox) == [];
    assert Answered(s.outbox, s.observed)[j] == 1;
    assert multiset(slots)[j] == 1;
    assert j in multiset(slots);
    assert j in slots;
    i :| 0 <= i < |slots| && slots[i] == j;
  }

  lemma {:induction false} SameWrites(cfg: Config, s: System, k: int)
    requires ValidConfig(cfg) && Inv(cfg, s) && s.outbox == []
    ensures SeenWrite(Monitor.Announced(s), |s.observed|, k) <==> Written(s.served, |s.served|, k)
  {
    hide ServedOk, Replay, ClientsOk, InboxOk, OutboxOk, TimesOk, OnceEach;
    var seen := Monitor.Announced(s);
    if i :| 0 <= i < |seen| && seen[i].op.typ == OpWrite && seen[i].op.key == k {
      assert seen[i] == s.observed[i].seen;
      var j := s.observed[i].slot;
      assert s.served[j].req.op.typ == OpWrite && s.served[j].req.op.key == k;
    }
    if j :| 0 <= j < |s.served| && s.served[j].req.op.typ == OpWrite && s.served[j].req.op.key == k {
      var i := AllSeen(s, j);
      assert seen[i] == s.observed[i].seen;
    }
  }

  /** With no answer under way, the pools differ by the requests' net effect. */
  lemma {:induction false} Difference(cfg: Config, s: System, k: int)
    requires ValidConfig(cfg) && Inv(cfg, s) && s.outbox == [] && k in cfg.pool
    ensures Monitor.KeysIn(cfg.pool, Monitor.Announced(s)) && s.pool.Keys == cfg.pool.Keys
    ensures s.pool[k] == Monitor.PoolAfter(cfg.pool, Monitor.Announced(s), |s.observed|)[k] + Net(s.served, |s.served|, k)
  {
    SameWrites(cfg, s, k);
    AnnouncedBlank(cfg, s);
    hide Replay, Monitor.PoolAfter, Net, Written, SeenWrite, TimesOk, InboxOk, OutboxOk, ObservedOk, ClientsOk, OnceEach;
    PoolExact(cfg.pool, Monitor.Announced(s), |s.observed|, k);
    ReplayExact(cfg.pool, s.served, |s.served|, k);
  }

  lemma {:induction false} EqualPools(mine: map<int, int>, other: map<int, int>, net: int -> int)
    requires mine.Keys == other.Keys && forall k :: k in mine ==> other[k] == mine[k] + net(k)
    ensures mine == other <==> forall k :: k in mine ==> net(k) == 0
  {
    if forall k :: k in mine ==> net(k) == 0 {
      assert forall k :: k in mine ==> other[k] == mine[k];
    }
  }

  /** When every processed request has been seen, the monitor's pool is the service's if
      and only if the requests leave no net effect on any key. */
  lemma {:induction false} AgreementExact(cfg: Config, acts: seq<Action>)
    requires ValidConfig(cfg) && Legal(cfg, acts) && Run(cfg, acts).outbox == []
    ensures var s := Run(cfg, acts); var seen := Monitor.Announced(s);
      && Monitor.KeysIn(cfg.pool, seen)
      && (Monitor.PoolAfter(cfg.pool, seen, |seen|) == s.pool <==>
          forall k :: k in cfg.pool ==> Net(s.served, |s.served|, k) == 0)
  {
    RunInv(cfg, acts);
    hide Run, Legal, Inv, Monitor.PoolAfter, Monitor.KeysIn, Net;
    var s := Run(cfg, acts);
    AnnouncedBlank(cfg, s);
    var mine := Monitor.PoolAfter(cfg.pool, Monitor.Announced(s), |s.observed|);
    assert 0 in cfg.pool;
    Difference(cfg, s, 0);
    forall k | k in cfg.pool
      ensures s.pool[k] == mine[k] + Net(s.served, |s.served|, k)
    {
      Difference(cfg, s, k);
    }
    EqualPools(mine, s.pool, k => Net(s.served, |s.served|, k));
  }

  /** One client writes `v`, and sees the answer. */
  function OneWrite(v: int): seq<Action> {
    [Send(0, Operation(OpWrite, 0, v, 0), 1), Serve(0), Deliver(0, 2)]
  }

  lemma {:induction false} OneWriteRun(initial: int, v: int)
    ensures var cfg := Config(map[0 := initial], 1, [1]);
      && Legal(cfg, OneWrite(v)) && Run(cfg, OneWrite(v)).outbox == []
      && Run(cfg, OneWrite(v)).served == [Served(Request(Operation(OpWrite, 0, v, 0), 0, 1), 0, 1)]
  {
    var cfg, acts := Config(map[0 := initial], 1, [1]), OneWrite(v);
    assert acts[..0] == [] && Legal(cfg, acts[..0]);
    assert acts[..1][..0] == acts[..0] && acts[..2][..1] == acts[..1] && acts[..3][..2] == acts[..2] && acts[..3] == acts;
    assert Legal(cfg, acts[..1]);
    var s := Run(cfg, acts[..1]);
    assert s.inbox == [Request(Operation(OpWrite, 0, v, 0), 0, 1)];
    assert Legal(cfg, acts[..2]);
    s := Run(cfg, acts[..2]);
    assert |s.outbox| == 1 && s.outbox[0].resp.cli == 0;
    assert Legal(cfg, acts[..3]);
  }

  /** A run of one write: the pools agree only if it wrote 0. */
  lemma {:induction false} OneWriteDisagrees(initial: int, v: int)
    ensures var cfg := Config(map[0 := initial], 1, [1]);
      && Legal(cfg, OneWrite(v))
      && var s := Run(cfg, OneWrite(v)); var seen := Monitor.Announced(s);
      && Monitor.KeysIn(cfg.pool, seen)
      && (Monitor.PoolAfter(cfg.pool, seen, |seen|) == s.pool <==> v == 0)
  {
    var cfg, acts := Config(map[0 := initial], 1, [1]), OneWrite(v);
    OneWriteRun(initial, v);
    hide Run, Legal, OneWrite, Monitor.PoolAfter;
    var s := Run(cfg, acts);
    AgreementExact(cfg, acts);
    assert Net(s.served, 1, 0) == v;
  }
}
