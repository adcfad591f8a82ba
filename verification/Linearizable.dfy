/** The linearizability assertion on ordering graphs accepts exactly the single chains
    of valid transitions that respect real time. */
module Linearizable {
  import opened OrderingGraph
  import opened Sets
  import opened Trap
  import opened PoolCheck
  import opened Consistency
  import opened Relationship

  /** `c` lists all nodes, from the head on, each linked to just the next. */
  ghost predicate IsChain(g: Graph, c: seq<int>) {
    && |c| > 0 && c[0] == g.head && Distinct(c)
    && (forall i :: 0 <= i < |c| ==> c[i] in g.nodes)
    && (forall u :: u in g.nodes ==> u in c)
    && (forall i :: 0 <= i < |c| ==> g.nodes[c[i]].next == if i + 1 < |c| then {c[i + 1]} else {})
  }

  /** Each pool is its predecessor's after the node's operation. */
  ghost predicate Replays(g: Graph, c: seq<int>)
    requires forall i :: 0 <= i < |c| ==> c[i] in g.nodes
  {
    forall i :: 0 < i < |c| ==> Transition(g, c[i - 1], c[i])
  }

  /** Whatever was answered before another was requested comes before it. */
  ghost predicate RespectsTime(g: Graph, c: seq<int>)
    requires forall i :: 0 <= i < |c| ==> c[i] in g.nodes
  {
    forall i, j :: 0 <= i < |c| && 0 <= j < |c| && i != j && g.nodes[c[i]].tsResp < g.nodes[c[j]].tsReq ==> i < j
  }

  ghost predicate LinearizedBy(g: Graph, c: seq<int>) {
    IsChain(g, c) && Replays(g, c) && RespectsTime(g, c)
  }

  ghost predicate IsLinearizable(g: Graph) {
    exists c :: LinearizedBy(g, c)
  }

  // ---------- walks in a chain ----------

  lemma {:induction false} ChainEdge(g: Graph, c: seq<int>, i: nat, x: int)
    requires IsChain(g, c) && i < |c|
    ensures Edge(g, c[i], x) <==> i + 1 < |c| && x == c[i + 1]
  {
  }

  lemma {:induction false} OneNext(g: Graph, c: seq<int>, i: nat)
    requires IsChain(g, c) && i < |c|
    ensures |g.nodes[c[i]].next| <= 1
  {
    var next := g.nodes[c[i]].next;
    assert next == if i + 1 < |c| then {c[i + 1]} else {};
    SubsetSize(next, if i + 1 < |c| then {c[i + 1]} else {0});
  }

  /** A walk from the `i`th node advances one place per edge. */
  lemma {:induction false} ChainWalk(g: Graph, c: seq<int>, p: seq<int>, i: nat)
    requires IsChain(g, c) && i < |c| && Path(g, p) && p[0] == c[i]
    ensures i + |p| <= |c| && p[|p| - 1] == c[i + |p| - 1]
  {
    if |p| > 1 {
      assert Edge(g, p[0], p[0 + 1]);
      ChainEdge(g, c, i, p[1]);
      SubPath(g, p, 1, |p|);
      assert p[1..|p|] == p[1..];
      ChainWalk(g, c, p[1..], i + 1);
    }
  }

  lemma {:induction false} ChainSlice(g: Graph, c: seq<int>, i: nat, j: nat)
    requires IsChain(g, c) && i <= j < |c|
    ensures Links(g, c[i..j + 1], c[i], c[j], 0)
  {
    var s := c[i..j + 1];
    forall k | 0 <= k < |s| - 1
      ensures Edge(g, s[k], s[k + 1])
    {
      ChainEdge(g, c, i + k, c[i + k + 1]);
    }
  }

  /** In a chain, later means reachable. */
  lemma {:induction false} ChainReach(g: Graph, c: seq<int>, i: nat, j: nat)
    requires IsChain(g, c) && i < |c| && j < |c|
    ensures ReachPlus(g, c[i], c[j]) <==> i < j
    ensures i <= j ==> Reach(g, c[i], c[j])
  {
    if i <= j {
      ChainSlice(g, c, i, j);
    }
    if i < j {
      assert Links(g, c[i..j + 1], c[i], c[j], 1);
    }
    if ReachPlus(g, c[i], c[j]) {
      var p :| Links(g, p, c[i], c[j], 1);
      ChainWalk(g, c, p, i);
      assert c[i + |p| - 1] == c[j];
    }
  }

  lemma {:induction false} ChainIndex(g: Graph, c: seq<int>, u: int) returns (i: nat)
    requires IsChain(g, c) && (u in g.nodes || Reach(g, g.head, u))
    ensures i < |c| && c[i] == u
  {
    if p :| Links(g, p, g.head, u, 0) {
      ChainWalk(g, c, p, 0);
      i := |p| - 1;
    } else {
      assert u in c;
      i :| 0 <= i < |c| && c[i] == u;
    }
  }

  /** A chain is well formed, does not branch, and has no bypassed edge. */
  lemma {:induction false} ChainIsClean(g: Graph, c: seq<int>)
    requires IsChain(g, c)
    ensures !Malformed(g) && !Branches(g) && !HasBypass(g)
  {
    forall u, x | Reach(g, g.head, u) && Edge(g, u, x)
      ensures x in g.nodes
    {
      var i := ChainIndex(g, c, u);
      ChainEdge(g, c, i, x);
    }
    forall u | Reach(g, g.head, u)
      ensures !ReachPlus(g, u, u)
    {
      var i := ChainIndex(g, c, u);
      ChainReach(g, c, i, i);
    }
    forall u | u in g.nodes
      ensures Reach(g, g.head, u) && |g.nodes[u].next| <= 1
    {
      var i := ChainIndex(g, c, u);
      ChainReach(g, c, 0, i);
      OneNext(g, c, i);
    }
    forall u, x, p | Reach(g, g.head, u) && Bypass(g, u, x, p)
      ensures false
    {
      var i := ChainIndex(g, c, u);
      ChainEdge(g, c, i, x);
      ChainWalk(g, c, p, i);
    }
  }

  lemma {:induction false} ChainJustified(g: Graph, c: seq<int>)
    requires IsChain(g, c)
    ensures AllJustified(g) <==> Replays(g, c)
  {
    if AllJustified(g) {
      forall i | 0 < i < |c|
        ensures Transition(g, c[i - 1], c[i])
      {
        ChainEdge(g, c, i - 1, c[i]);
        assert Justified(g, c[i]);
        var u :| Edge(g, u, c[i]) && Transition(g, u, c[i]);
        var j := ChainIndex(g, c, u);
        ChainEdge(g, c, j, c[i]);
      }
    }
    if Replays(g, c) {
      forall x | x in g.nodes
        ensures Justified(g, x)
      {
        var i := ChainIndex(g, c, x);
        if i > 0 {
          ChainEdge(g, c, i - 1, x);
          assert Transition(g, c[i - 1], c[i]);
        } else {
          forall u | Edge(g, u, x)
            ensures false
          {
            var j := ChainIndex(g, c, u);
            ChainEdge(g, c, j, x);
          }
        }
      }
    }
  }

  // ---------- building the chain ----------

  /** A duplicate-free walk from the head along only edges. */
  ghost predicate Started(g: Graph, c: seq<int>) {
    && |c| > 0 && c[0] == g.head && Distinct(c)
    && (forall i :: 0 <= i < |c| ==> c[i] in g.nodes)
    && (forall i :: 0 <= i < |c| - 1 ==> g.nodes[c[i]].next == {c[i + 1]})
  }

  lemma {:induction false} StartedReach(g: Graph, c: seq<int>, i: nat, j: nat)
    requires Started(g, c) && i <= j < |c|
    ensures Reach(g, c[i], c[j])
  {
    if i == j {
      ReachSelf(g, c[i]);
    } else {
      StartedReach(g, c, i, j - 1);
      assert c[j] in g.nodes[c[j - 1]].next;
      ReachThenEdge(g, c[i], c[j - 1], c[j]);
    }
  }

  lemma {:induction false} SmallSet<T>(s: set<T>, x: T)
    requires |s| <= 1 && x in s
    ensures s == {x}
  {
    SubsetSize({x}, s);
  }

  lemma {:induction false} DistinctBound(s: seq<int>, all: set<int>)
    requires Distinct(s) && forall i :: 0 <= i < |s| ==> s[i] in all
    ensures |s| <= |all|
  {
    if |s| > 0 {
      var n := |s| - 1;
      DistinctBound(s[..n], all - {s[n]});
    }
  }

  lemma {:induction false} Grow(g: Graph, c: seq<int>) returns (chain: seq<int>)
    requires !Malformed(g) && !Branches(g) && Started(g, c)
    ensures IsChain(g, chain)
    decreases |g.nodes| - |c|
  {
    var last := c[|c| - 1];
    DistinctBound(c, g.nodes.Keys);
    if g.nodes[last].next == {} {
      chain := c;
      Complete(g, c);
    } else {
      var y := Pick(g.nodes[last].next);
      SmallSet(g.nodes[last].next, y);
      var c' := c + [y];
      GrowOne(g, c, y);
      DistinctBound(c', g.nodes.Keys);
      chain := Grow(g, c');
    }
  }

  lemma {:induction false} GrowOne(g: Graph, c: seq<int>, y: int)
    requires !Malformed(g) && Started(g, c) && g.nodes[c[|c| - 1]].next == {y}
    ensures Started(g, c + [y])
  {
    var n := |c| - 1;
    StartedReach(g, c, 0, n);
    assert Edge(g, c[n], y);
    forall i | 0 <= i < |c|
      ensures c[i] != y
    {
      StartedReach(g, c, i, n);
      StartedReach(g, c, 0, i);
      if c[i] == y {
        ReachThenEdge(g, y, c[n], y);
      }
    }
    hide Malformed, Reach;
    DistinctAppend(c, [y]);
  }

  lemma {:induction false} Complete(g: Graph, c: seq<int>)
    requires !Malformed(g) && Started(g, c) && g.nodes[c[|c| - 1]].next == {}
    ensures IsChain(g, c)
  {
    var all := set i | 0 <= i < |c| :: c[i];
    forall u, v | u in all && Edge(g, u, v)
      ensures v in all
    {
      var i :| 0 <= i < |c| && c[i] == u;
      assert i < |c| - 1 && v == c[i + 1];
    }
    forall u | u in g.nodes
      ensures u in c
    {
      assert Reach(g, g.head, u);
      var p :| Links(g, p, g.head, u, 0);
      assert c[0] in all;
      ClosedKeeps(g, all, p);
    }
  }

  // ---------- the assertion ----------

  datatype Verdict = Passes | Fails | KeyFails | Hangs

  lemma {:induction false} TimeIsRT(g: Graph, c: seq<int>, reachable: map<int, set<int>>)
    requires IsChain(g, c) && ExactReach(g, reachable) && Pairs(g, reachable, AllPairs(g))
    ensures Strongest(g, reachable, AllPairs(g)) == RT <==> RespectsTime(g, c)
  {
    LevelsExact(g, reachable);
    assert forall i, j :: 0 <= i < |c| && 0 <= j < |c| && i != j ==> c[i] != c[j];
    hide Strongest, IsChain, ExactReach, AllPairs, ReachPlus;
    if RespectsTime(g, c) {
      forall a, b | a in g.nodes && b in g.nodes && Before(g, a, b)
        ensures ReachPlus(g, a, b)
      {
        var i := ChainIndex(g, c, a);
        var j := ChainIndex(g, c, b);
        ChainReach(g, c, i, j);
      }
    }
    if TimeOrdered(g) {
      forall i, j | 0 <= i < |c| && 0 <= j < |c| && i != j && g.nodes[c[i]].tsResp < g.nodes[c[j]].tsReq
        ensures i < j
      {
        assert Before(g, c[i], c[j]);
        ChainReach(g, c, i, j);
      }
    }
  }

  /** A graph is linearizable exactly if it conforms to single order and real time. */
  lemma {:induction false} LinearizableExact(g: Graph, reachable: map<int, set<int>>)
    requires g.head in g.nodes && ExactReach(g, reachable) && Pairs(g, reachable, AllPairs(g))
    ensures LevelOf(g) == SO && Strongest(g, reachable, AllPairs(g)) == RT <==> IsLinearizable(g)
  {
    hide Malformed, Branches, AllJustified, Replays, RespectsTime, Strongest, ExactReach, HasBypass;
    if LevelOf(g) == SO {
      var c := Grow(g, [g.head]);
      ChainJustified(g, c);
      TimeIsRT(g, c, reachable);
      if Strongest(g, reachable, AllPairs(g)) == RT {
        assert LinearizedBy(g, c);
      }
    }
    if c :| LinearizedBy(g, c) {
      ChainIsClean(g, c);
      ChainJustified(g, c);
      TimeIsRT(g, c, reachable);
    }
  }

  method SatisfiedConstraints(g: Graph) returns (r: Outcome, relationship: RelationshipLevel)
    requires g.head in g.nodes
    ensures r.LoopsForever? ==> HasTrap(g)
    ensures r.KeyMissing? ==> !Malformed(g) && !PoolsCover(g)
    ensures r.Returned? ==> r.level == LevelOf(g)
    ensures r.Returned? && r.level == Invalid ==> relationship == Unrelated
    ensures r.Returned? && r.level != Invalid ==>
      && ExactReach(g, r.reachable) && Pairs(g, r.reachable, AllPairs(g))
      && relationship == Strongest(g, r.reachable, AllPairs(g))
  {
    hide HasTrap, PoolsCover, Malformed, AllJustified, Branches, Strongest;
    relationship := Unrelated;
    r := ConvergenceConformity(g);
    if r.Returned? && r.level != Invalid {
      relationship := RelationshipConformity(g, r.reachable);
    }
  }

  /** The assertion passes if and only if the graph is one chain of valid transitions in
      which real-time order is kept. */
  method AssertLinearizability(g: Graph) returns (v: Verdict)
    requires g.head in g.nodes
    ensures v == Passes <==> IsLinearizable(g)
    ensures v == Hangs ==> HasTrap(g)
    ensures v == KeyFails ==> !Malformed(g) && !PoolsCover(g)
  {
    hide PoolsCover, Malformed, LevelOf, Strongest, ExactReach, LinearizedBy, HasTrap;
    var r, relationship := SatisfiedConstraints(g);
    if r.LoopsForever? {
      TrapIsNotChain(g);
      return Hangs;
    }
    if r.KeyMissing? {
      LinearizableCovers(g);
      return KeyFails;
    }
    if r.level == Invalid {
      MalformedIsNotChain(g);
      return Fails;
    }
    LinearizableExact(g, r.reachable);
    if r.level == SO && relationship == RT {
      return Passes;
    }
    return Fails;
  }

  lemma {:induction false} TrapIsNotChain(g: Graph)
    requires HasTrap(g)
    ensures forall c :: !IsChain(g, c)
    ensures !IsLinearizable(g)
  {
    hide HasBypass;
    TrapIsBypass(g);
    forall c | IsChain(g, c)
      ensures false
    {
      ChainIsClean(g, c);
    }
  }

  /** Every operation of a replaying chain finds its key. */
  lemma {:induction false} ChainCovers(g: Graph, c: seq<int>)
    requires IsChain(g, c) && Replays(g, c)
    ensures PoolsCover(g)
  {
    forall u, x | Edge(g, u, x) && x in g.nodes
      ensures g.nodes[x].op.key in g.nodes[u].pool
    {
      var i := ChainIndex(g, c, u);
      ChainEdge(g, c, i, x);
      assert Transition(g, c[i + 1 - 1], c[i + 1]);
    }
  }

  lemma {:induction false} LinearizableCovers(g: Graph)
    ensures IsLinearizable(g) ==> PoolsCover(g)
  {
    if c :| LinearizedBy(g, c) {
      ChainCovers(g, c);
    }
  }

  lemma {:induction false} MalformedIsNotChain(g: Graph)
    requires LevelOf(g) == Invalid
    ensures !IsLinearizable(g)
  {
    if c :| LinearizedBy(g, c) {
      ChainIsClean(g, c);
    }
  }
}
