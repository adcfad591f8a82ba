/** The sequential-consistency assertion accepts exactly the graphs that are sequentially
    consistent and not linearizable. */
module Sequential {
  import opened OrderingGraph
  import opened Trap
  import opened PoolCheck
  import opened Consistency
  import opened Relationship
  import opened Linearizable

  /** A client was answered `a` before it requested `b`. */
  predicate SessionBefore(g: Graph, a: int, b: int)
    requires a in g.nodes && b in g.nodes
  {
    g.nodes[a].cId == g.nodes[b].cId && g.nodes[a].tsResp < g.nodes[b].tsReq
  }

  /** Whatever a client was answered before it made another request comes before that. */
  ghost predicate RespectsSessions(g: Graph, c: seq<int>)
    requires forall i :: 0 <= i < |c| ==> c[i] in g.nodes
  {
    forall i, j :: 0 <= i < |c| && 0 <= j < |c| && i != j && SessionBefore(g, c[i], c[j]) ==> i < j
  }

  ghost predicate SequencedBy(g: Graph, c: seq<int>) {
    IsChain(g, c) && Replays(g, c) && RespectsSessions(g, c)
  }

  ghost predicate IsSequential(g: Graph) {
    exists c :: SequencedBy(g, c)
  }

  lemma {:induction false} LinearizableIsSequential(g: Graph)
    requires IsLinearizable(g)
    ensures IsSequential(g)
  {
    var c :| LinearizedBy(g, c);
    assert SequencedBy(g, c);
  }

  lemma {:induction false} BreaksInChain(g: Graph, c: seq<int>, reachable: map<int, set<int>>, i: nat, j: nat)
    requires IsChain(g, c) && ExactReach(g, reachable) && i < |c| && j < |c|
    ensures BreaksCASL(g, reachable, c[i], c[j]) <==> i != j && SessionBefore(g, c[i], c[j]) && !(i < j)
  {
    ChainReach(g, c, i, j);
    assert i != j ==> c[i] != c[j];
  }

  lemma {:induction false} SessionsAreCASL(g: Graph, c: seq<int>, reachable: map<int, set<int>>)
    requires IsChain(g, c) && ExactReach(g, reachable) && Pairs(g, reachable, AllPairs(g))
    ensures var r := Strongest(g, reachable, AllPairs(g)); r == RT || r == CASL <==> RespectsSessions(g, c)
  {
    assert forall i :: 0 <= i < |c| ==> c[i] in g.nodes;
    hide ExactReach, IsChain, SessionBefore;
    if RespectsSessions(g, c) {
      forall p | p in AllPairs(g)
        ensures !BreaksCASL(g, reachable, p.0, p.1)
      {
        var i := ChainIndex(g, c, p.0);
        var j := ChainIndex(g, c, p.1);
        BreaksInChain(g, c, reachable, i, j);
      }
    } else {
      var i, j :| 0 <= i < |c| && 0 <= j < |c| && i != j && SessionBefore(g, c[i], c[j]) && !(i < j);
      BreaksInChain(g, c, reachable, i, j);
      var p := (c[i], c[j]);
      assert p in AllPairs(g) && BreaksCASL(g, reachable, p.0, p.1);
    }
  }

  lemma {:induction false} SequentialExact(g: Graph, reachable: map<int, set<int>>)
    requires g.head in g.nodes && ExactReach(g, reachable) && Pairs(g, reachable, AllPairs(g))
    ensures LevelOf(g) == SO && Strongest(g, reachable, AllPairs(g)) == CASL <==> IsSequential(g) && !IsLinearizable(g)
  {
    LinearizableExact(g, reachable);
    hide Malformed, Branches, AllJustified, Replays, RespectsSessions, Strongest, ExactReach, HasBypass, IsLinearizable;
    if LevelOf(g) == SO {
      var c := Grow(g, [g.head]);
      ChainJustified(g, c);
      SessionsAreCASL(g, c, reachable);
      if Strongest(g, reachable, AllPairs(g)) == CASL {
        assert SequencedBy(g, c);
      }
    }
    if c :| SequencedBy(g, c) {
      ChainIsClean(g, c);
      ChainJustified(g, c);
      SessionsAreCASL(g, c, reachable);
    }
  }

  lemma {:induction false} SequentialShape(g: Graph)
    requires IsSequential(g)
    ensures LevelOf(g) == SO && !HasTrap(g) && PoolsCover(g)
  {
    var c :| SequencedBy(g, c);
    hide Malformed, Branches, AllJustified, RespectsSessions, PoolsCover, HasTrap, HasBypass;
    ChainIsClean(g, c);
    ChainJustified(g, c);
    ChainCovers(g, c);
    if HasTrap(g) {
      TrapIsNotChain(g);
    }
  }

  /** The assertion demands exactly the level it names, so it fails on everything that is
      even linearizable. */
  method AssertSequentialConsistency(g: Graph) returns (v: Verdict)
    requires g.head in g.nodes
    ensures v == Passes <==> IsSequential(g) && !IsLinearizable(g)
    ensures v == Hangs ==> HasTrap(g)
    ensures v == KeyFails ==> !Malformed(g) && !PoolsCover(g)
  {
    hide PoolsCover, Malformed, LevelOf, Strongest, ExactReach, IsSequential, IsLinearizable, HasTrap;
    var r, relationship := SatisfiedConstraints(g);
    ghost var sequential := IsSequential(g);
    if sequential {
      SequentialShape(g);
    }
    if r.LoopsForever? {
      return Hangs;
    }
    if r.KeyMissing? {
      return KeyFails;
    }
    if r.level == Invalid {
      return Fails;
    }
    SequentialExact(g, r.reachable);
    if r.level == SO && relationship == CASL {
      return Passes;
    }
    return Fails;
  }
}
