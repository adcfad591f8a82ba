/** The specification monitor: it grows a chain of seen responses and asserts, after
    each one, that the chain is linearizable. */
module Monitor {
  import opened OrderingGraph
  import opened Trap
  import opened PoolCheck
  import opened Linearizable
  import ObjectPool

  type Seen = ObjectPool.Seen

  ghost predicate KeysIn(pool: map<int, int>, seen: seq<Seen>) {
    forall i :: 0 <= i < |seen| ==> seen[i].op.key in pool
  }

  /** Responses were announced in the order of their clock readings, all after 0. */
  ghost predicate InOrder(seen: seq<Seen>) {
    && (forall i :: 0 <= i < |seen| ==> 0 < seen[i].tsReq < seen[i].tsResp)
    && (forall i, j :: 0 <= i < j < |seen| ==> seen[i].tsResp < seen[j].tsResp)
  }

  /** No response came before an earlier announced one was requested, or before time 0. */
  ghost predicate OnTime(seen: seq<Seen>) {
    && (forall i :: 0 <= i < |seen| ==> 0 <= seen[i].tsResp)
    && (forall i, j :: 0 <= i < j < |seen| ==> seen[i].tsReq <= seen[j].tsResp)
  }

  /** The monitor's pool after the first `n` responses. */
  ghost function PoolAfter(pool: map<int, int>, seen: seq<Seen>, n: nat): (r: map<int, int>)
    requires KeysIn(pool, seen) && n <= |seen|
    ensures r.Keys == pool.Keys
  {
    if n == 0 then pool else ApplyOpToPool(seen[n - 1].op, PoolAfter(pool, seen, n - 1))
  }

  ghost function NodeAt(pool: map<int, int>, seen: seq<Seen>, i: nat): Node
    requires KeysIn(pool, seen) && i <= |seen|
  {
    var next := if i < |seen| then {i + 1} else {};
    if i == 0 then Node(0, 0, Operation(OpRead, 0, 0, 0), 0, 0, pool, next)
    else Node(i, seen[i - 1].cId, seen[i - 1].op, seen[i - 1].tsReq, seen[i - 1].tsResp, PoolAfter(pool, seen, i), next)
  }

  /** The chain of all responses, in the order they were announced. */
  ghost predicate IsHistory(g: Graph, pool: map<int, int>, seen: seq<Seen>)
    requires KeysIn(pool, seen)
  {
    && g.head == 0
    && (forall u :: u in g.nodes <==> 0 <= u <= |seen|)
    && forall i :: 0 <= i <= |seen| ==> g.nodes[i] == NodeAt(pool, seen, i)
  }

  function Indices(n: nat): seq<int> {
    seq(n, i => i)
  }

  lemma {:induction false} HistoryIsChain(g: Graph, pool: map<int, int>, seen: seq<Seen>)
    requires KeysIn(pool, seen) && IsHistory(g, pool, seen)
    ensures IsChain(g, Indices(|seen| + 1)) && PoolsCover(g)
  {
    var c := Indices(|seen| + 1);
    forall u | u in g.nodes
      ensures u in c
    {
      assert c[u] == u;
    }
    forall u, x | Edge(g, u, x) && x in g.nodes
      ensures g.nodes[x].op.key in g.nodes[u].pool
    {
      assert g.nodes[u] == NodeAt(pool, seen, u) && g.nodes[x] == NodeAt(pool, seen, x);
    }
    forall i | 0 <= i < |c|
      ensures g.nodes[c[i]].next == if i + 1 < |c| then {c[i + 1]} else {}
    {
      assert g.nodes[i] == NodeAt(pool, seen, i);
    }
  }

  /** A graph has at most one chain. */
  lemma {:induction false} ChainUnique(g: Graph, c: seq<int>, d: seq<int>, i: nat)
    requires IsChain(g, c) && IsChain(g, d) && i < |c|
    ensures i < |d| && c[i] == d[i]
  {
    if i > 0 {
      ChainUnique(g, c, d, i - 1);
      ChainEdge(g, c, i - 1, c[i]);
      ChainEdge(g, d, i - 1, c[i]);
    }
  }

  lemma {:induction false} HistoryReplays(g: Graph, pool: map<int, int>, seen: seq<Seen>)
    requires KeysIn(pool, seen) && IsHistory(g, pool, seen)
    ensures Replays(g, Indices(|seen| + 1))
    ensures RespectsTime(g, Indices(|seen| + 1)) <==> OnTime(seen)
  {
    var c := Indices(|seen| + 1);
    forall i | 0 < i < |c|
      ensures Transition(g, c[i - 1], c[i])
    {
      assert g.nodes[i] == NodeAt(pool, seen, i) && g.nodes[i - 1] == NodeAt(pool, seen, i - 1);
    }
    assert forall i :: 0 <= i < |c| ==> g.nodes[c[i]] == NodeAt(pool, seen, i);
    if RespectsTime(g, c) {
      forall i, j | 0 <= i < j < |seen|
        ensures seen[i].tsReq <= seen[j].tsResp
      {
        assert g.nodes[c[i + 1]].tsReq <= g.nodes[c[j + 1]].tsResp;
      }
      forall i | 0 <= i < |seen|
        ensures 0 <= seen[i].tsResp
      {
        assert g.nodes[c[0]].tsReq <= g.nodes[c[i + 1]].tsResp;
      }
    }
  }

  /** The history of announced responses is linearizable exactly if they are on time. */
  lemma {:induction false} HistoryExact(g: Graph, pool: map<int, int>, seen: seq<Seen>)
    requires KeysIn(pool, seen) && IsHistory(g, pool, seen)
    ensures IsLinearizable(g) <==> OnTime(seen)
  {
    hide IsHistory, KeysIn, Replays, RespectsTime, OnTime;
    var c := Indices(|seen| + 1);
    HistoryIsChain(g, pool, seen);
    HistoryReplays(g, pool, seen);
    if OnTime(seen) {
      assert LinearizedBy(g, c);
    }
    if d :| LinearizedBy(g, d) {
      SameChain(g, c, d);
    }
  }

  lemma {:induction false} SameChain(g: Graph, c: seq<int>, d: seq<int>)
    requires IsChain(g, c) && IsChain(g, d)
    ensures c == d
  {
    ChainUnique(g, c, d, |c| - 1);
    ChainUnique(g, d, c, |d| - 1);
    hide IsChain;
    forall i | 0 <= i < |c|
      ensures c[i] == d[i]
    {
      ChainUnique(g, c, d, i);
    }
  }

  lemma {:induction false} InOrderOnTime(seen: seq<Seen>)
    requires InOrder(seen)
    ensures OnTime(seen)
  {
  }

  /** The history after one more response. */
  ghost function Grown(g: Graph, n: int, resp: Seen): Graph
    requires n in g.nodes && resp.op.key in g.nodes[n].pool
  {
    var prev := g.nodes[n];
    var node := Node(n + 1, resp.cId, resp.op, resp.tsReq, resp.tsResp, ApplyOpToPool(resp.op, prev.pool), {});
    g.(nodes := g.nodes[n := prev.(next := prev.next + {n + 1})][n + 1 := node])
  }

  lemma {:induction false} HistoryGrows(g: Graph, pool: map<int, int>, seen: seq<Seen>, resp: Seen)
    requires KeysIn(pool, seen) && IsHistory(g, pool, seen) && resp.op.key in pool
    ensures |seen| in g.nodes && resp.op.key in g.nodes[|seen|].pool
    ensures KeysIn(pool, seen + [resp])
    ensures IsHistory(Grown(g, |seen|, resp), pool, seen + [resp])
  {
    hide ApplyOpToPool;
    var n, more := |seen|, seen + [resp];
    assert g.nodes[n] == NodeAt(pool, seen, n);
    Appended(pool, seen, resp);
    var g' := Grown(g, n, resp);
    forall i | 0 <= i <= |more|
      ensures g'.nodes[i] == NodeAt(pool, more, i)
    {
      if i <= n {
        assert g.nodes[i] == NodeAt(pool, seen, i);
        assert i > 0 ==> more[i - 1] == seen[i - 1];
      } else {
        assert PoolAfter(pool, more, n + 1) == ApplyOpToPool(resp.op, PoolAfter(pool, more, n));
      }
    }
  }

  class Spec {
    var history: Graph
    var nodeId: int
    ghost var initialPool: map<int, int>
    ghost var seen: seq<Seen>

    ghost predicate Valid()
      reads this
    {
      && KeysIn(initialPool, seen)
      && IsHistory(history, initialPool, seen)
      && nodeId == |seen| + 1
    }

    /** A dummy first node carries the initial pool. */
    constructor (pool: map<int, int>)
      ensures Valid() && initialPool == pool && seen == []
    {
      history := Graph(map[0 := Node(0, 0, Operation(OpRead, 0, 0, 0), 0, 0, pool, {})], 0);
      nodeId := 1;
      initialPool := pool;
      seen := [];
    }

    /** Link the previous node to a new one that carries the pool after the response. */
    method AppendResponse(resp: Seen)
      requires Valid() && resp.op.key in initialPool
      modifies this`history, this`seen
      ensures seen == old(seen) + [resp] && KeysIn(initialPool, seen)
      ensures IsHistory(history, initialPool, seen)
      ensures nodeId in history.nodes && history.nodes[nodeId].nId == nodeId && history.nodes[nodeId].cId == resp.cId
      ensures history.nodes[nodeId].op == resp.op
      ensures history.nodes[nodeId].tsReq == resp.tsReq && history.nodes[nodeId].tsResp == resp.tsResp
    {
      hide KeysIn, NodeAt, PoolAfter;
      HistoryGrows(history, initialPool, seen, resp);
      var prev := history.nodes[nodeId - 1];
      var node := Node(nodeId, resp.cId, resp.op, resp.tsReq, resp.tsResp, ApplyOpToPool(resp.op, prev.pool), {});
      var nodes := history.nodes[nodeId - 1 := prev.(next := prev.next + {nodeId})];
      history := history.(nodes := nodes[nodeId := node]);
      seen := seen + [resp];
    }

    /** The assertion made after every announced response passes exactly if all
        responses are on time, and the check always returns. */
    method OnClientSeesResponse(resp: Seen) returns (v: Verdict)
      requires Valid() && resp.op.key in initialPool
      modifies this
      ensures Valid() && seen == old(seen) + [resp] && initialPool == old(initialPool)
      ensures v == if OnTime(seen) then Passes else Fails
    {
      hide HasTrap, PoolsCover, IsChain, OnTime, IsLinearizable;
      AppendResponse(resp);
      HistoryExact(history, initialPool, seen);
      HistoryIsChain(history, initialPool, seen);
      v := AssertLinearizability(history);
      if v == Hangs {
        TrapIsNotChain(history);
      }
      nodeId := nodeId + 1;
    }
  }

  lemma {:induction false} Appended(pool: map<int, int>, seen: seq<Seen>, resp: Seen)
    requires KeysIn(pool, seen) && resp.op.key in pool
    ensures KeysIn(pool, seen + [resp])
    ensures forall i :: 0 <= i <= |seen| ==> PoolAfter(pool, seen + [resp], i) == PoolAfter(pool, seen, i)
  {
    forall i | 0 <= i <= |seen|
      ensures PoolAfter(pool, seen + [resp], i) == PoolAfter(pool, seen, i)
    {
      PoolPrefix(pool, seen, resp, i);
    }
  }

  lemma {:induction false} PoolPrefix(pool: map<int, int>, seen: seq<Seen>, resp: Seen, n: nat)
    requires KeysIn(pool, seen) && resp.op.key in pool && n <= |seen|
    ensures KeysIn(pool, seen + [resp]) && PoolAfter(pool, seen + [resp], n) == PoolAfter(pool, seen, n)
  {
    if n > 0 {
      PoolPrefix(pool, seen, resp, n - 1);
    }
  }

  /** What the clients of a run announced, in order. */
  ghost function Announced(s: ObjectPool.System): seq<Seen> {
    seq(|s.observed|, i requires 0 <= i < |s.observed| => s.observed[i].seen)
  }

  /** In every run, each prefix of the announced responses meets the monitor's demands
      and is on time. */
  lemma {:induction false} AnnouncedOnTime(cfg: ObjectPool.Config, acts: seq<ObjectPool.Action>, n: nat)
    requires ObjectPool.ValidConfig(cfg) && ObjectPool.Legal(cfg, acts)
    requires n <= |ObjectPool.Run(cfg, acts).observed|
    ensures var seen := Announced(ObjectPool.Run(cfg, acts))[..n];
      KeysIn(cfg.pool, seen) && InOrder(seen) && OnTime(seen)
  {
    hide ObjectPool.Run, ObjectPool.Legal;
    ObjectPool.RunInv(cfg, acts);
    var s := ObjectPool.Run(cfg, acts);
    AnnouncedOk(cfg, s, n);
    InOrderOnTime(Announced(s)[..n]);
  }

  lemma {:induction false} AnnouncedOk(cfg: ObjectPool.Config, s: ObjectPool.System, n: nat)
    requires ObjectPool.ValidConfig(cfg) && ObjectPool.Inv(cfg, s) && n <= |s.observed|
    ensures KeysIn(cfg.pool, Announced(s)[..n]) && InOrder(Announced(s)[..n])
  {
    var seen := Announced(s)[..n];
    forall i | 0 <= i < |seen|
      ensures seen[i].op.key in cfg.pool && 0 < seen[i].tsReq < seen[i].tsResp
    {
      assert seen[i] == s.observed[i].seen;
    }
  }
}
