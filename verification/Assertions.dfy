/** The assertions for causal, PRAM, eventual and weak consistency. */
module Assertions {
  import opened OrderingGraph
  import opened Sets
  import opened Trap
  import opened PoolCheck
  import opened Consistency
  import opened Relationship
  import opened Linearizable

  // ---------- convergence levels ----------

  /** Every node can be reached, no edge dangles, and there is no cycle. */
  ghost predicate WellFormed(g: Graph) {
    && (forall u :: u in g.nodes ==> Reach(g, g.head, u) && !ReachPlus(g, u, u))
    && (forall u, x :: Edge(g, u, x) ==> x in g.nodes)
  }

  /** Some node has parents, none of which leads to its pool. */
  ghost predicate Unexplainable(g: Graph) {
    exists u, x :: Edge(g, u, x) && x in g.nodes && forall w :: Edge(g, w, x) ==> !Transition(g, w, x)
  }

  /** Some node has two different edges out. */
  ghost predicate Forks(g: Graph) {
    exists u, x, y :: Edge(g, u, x) && Edge(g, u, y) && x != y
  }

  lemma {:induction false} WellFormedExact(g: Graph)
    ensures WellFormed(g) <==> !Malformed(g)
  {
    hide Reach, ReachPlus;
    if !Malformed(g) {
      forall u, x | Edge(g, u, x)
        ensures x in g.nodes
      {
        assert Reach(g, g.head, u);
      }
    }
    if WellFormed(g) {
      forall u | Reach(g, g.head, u)
        ensures u in g.nodes || u == g.head
      {
        ReachedExists(g, u);
      }
      assert !Dangling(g) && !Disconnected(g);
      if u :| Reach(g, g.head, u) && ReachPlus(g, u, u) {
        PlusUnfold(g, u, u);
      }
    }
  }

  lemma {:induction false} ReachedExists(g: Graph, u: int)
    requires WellFormed(g) && Reach(g, g.head, u)
    ensures u in g.nodes || u == g.head
  {
    var p :| Links(g, p, g.head, u, 0);
    if |p| > 1 {
      assert Edge(g, p[|p| - 2], p[|p| - 2 + 1]);
    }
  }

  lemma {:induction false} ForksExact(g: Graph)
    ensures Forks(g) <==> Branches(g)
  {
    if u, x, y :| Edge(g, u, x) && Edge(g, u, y) && x != y {
      SubsetSize({x, y}, g.nodes[u].next);
      assert |{x, y}| == 2;
    }
    if u :| u in g.nodes && |g.nodes[u].next| > 1 {
      var next := g.nodes[u].next;
      var x := Pick(next);
      assert |next - {x}| > 0;
      var y := Pick(next - {x});
      assert Edge(g, u, x) && Edge(g, u, y);
    }
  }

  lemma {:induction false} UnexplainableExact(g: Graph)
    ensures Unexplainable(g) <==> !AllJustified(g)
  {
    hide Transition;
    if u, x :| Edge(g, u, x) && x in g.nodes && forall w :: Edge(g, w, x) ==> !Transition(g, w, x) {
      assert !Justified(g, x);
    }
    if x :| x in g.nodes && !Justified(g, x) {
      var u :| Edge(g, u, x);
    }
  }

  /** The convergence levels, on every graph. */
  lemma {:induction false} ConvergenceExact(g: Graph)
    ensures LevelOf(g) == Invalid <==> !WellFormed(g)
    ensures LevelOf(g) == NPO <==> WellFormed(g) && Unexplainable(g)
    ensures LevelOf(g) == CPO <==> WellFormed(g) && !Unexplainable(g) && Forks(g)
    ensures LevelOf(g) == SO <==> WellFormed(g) && !Unexplainable(g) && !Forks(g)
  {
    WellFormedExact(g);
    UnexplainableExact(g);
    ForksExact(g);
  }

  // ---------- the assertions ----------

  /** A convergent partial order that keeps sessions, but not real time. */
  ghost predicate IsCausal(g: Graph) {
    WellFormed(g) && !Unexplainable(g) && Forks(g) && SessionOrdered(g) && !TimeOrdered(g)
  }

  /** Some pool is unexplained; writes of a session are kept in order, but not sessions. */
  ghost predicate IsPram(g: Graph) {
    WellFormed(g) && Unexplainable(g) && FifoOrdered(g) && !SessionOrdered(g)
  }

  ghost predicate IsEventual(g: Graph) {
    WellFormed(g) && !Unexplainable(g) && Forks(g) && !FifoOrdered(g)
  }

  ghost predicate IsWeak(g: Graph) {
    WellFormed(g) && Unexplainable(g) && !FifoOrdered(g)
  }

  /** Compare both levels for equality. */
  method AssertLevels(g: Graph, convergence: ConvergenceLevel, relationship: RelationshipLevel)
    returns (v: Verdict, ghost reachable: map<int, set<int>>)
    requires g.head in g.nodes && convergence != Invalid
    ensures v == Hangs ==> HasTrap(g)
    ensures v == KeyFails ==> !Malformed(g) && !PoolsCover(g)
    ensures v == Passes || (v == Fails && LevelOf(g) != Invalid) ==>
      && ExactReach(g, reachable) && Pairs(g, reachable, AllPairs(g))
      && (v == Passes <==> LevelOf(g) == convergence && Strongest(g, reachable, AllPairs(g)) == relationship)
  {
    hide HasTrap, Malformed, PoolsCover, LevelOf, ExactReach, Strongest, AllPairs;
    reachable := map[];
    var r, found := SatisfiedConstraints(g);
    if r.LoopsForever? {
      return Hangs, reachable;
    }
    if r.KeyMissing? {
      return KeyFails, reachable;
    }
    reachable := r.reachable;
    if r.level == convergence && found == relationship {
      return Passes, reachable;
    }
    return Fails, reachable;
  }

  method AssertCausalConsistency(g: Graph) returns (v: Verdict)
    requires g.head in g.nodes
    ensures v == Passes ==> IsCausal(g)
    ensures v == Fails ==> !IsCausal(g)
    ensures v == Hangs ==> HasTrap(g)
    ensures v == KeyFails ==> !Malformed(g) && !PoolsCover(g)
  {
    hide HasTrap, Malformed, PoolsCover, LevelOf, WellFormed, Unexplainable, Forks, TimeOrdered, SessionOrdered, ExactReach,
         Strongest, AllPairs;
    ConvergenceExact(g);
    ghost var reachable;
    v, reachable := AssertLevels(g, CPO, CASL);
    if v != Hangs && v != KeyFails && LevelOf(g) != Invalid {
      LevelsExact(g, reachable);
    }
  }

  method AssertPRAMConsistency(g: Graph) returns (v: Verdict)
    requires g.head in g.nodes
    ensures v == Passes ==> IsPram(g)
    ensures v == Fails ==> !IsPram(g)
    ensures v == Hangs ==> HasTrap(g)
    ensures v == KeyFails ==> !Malformed(g) && !PoolsCover(g)
  {
    hide HasTrap, Malformed, PoolsCover, LevelOf, WellFormed, Unexplainable, Forks, FifoOrdered, SessionOrdered, ExactReach,
         Strongest, AllPairs;
    ConvergenceExact(g);
    ghost var reachable;
    v, reachable := AssertLevels(g, NPO, FIFO);
    if v != Hangs && v != KeyFails && LevelOf(g) != Invalid {
      LevelsExact(g, reachable);
    }
  }

  method AssertEventualConsistency(g: Graph) returns (v: Verdict)
    requires g.head in g.nodes
    ensures v == Passes ==> IsEventual(g)
    ensures v == Fails ==> !IsEventual(g)
    ensures v == Hangs ==> HasTrap(g)
    ensures v == KeyFails ==> !Malformed(g) && !PoolsCover(g)
  {
    hide HasTrap, Malformed, PoolsCover, LevelOf, WellFormed, Unexplainable, Forks, FifoOrdered, ExactReach, Strongest, AllPairs;
    ConvergenceExact(g);
    ghost var reachable;
    v, reachable := AssertLevels(g, CPO, Unrelated);
    if v != Hangs && v != KeyFails && LevelOf(g) != Invalid {
      LevelsExact(g, reachable);
    }
  }

  method AssertWeakConsistency(g: Graph) returns (v: Verdict)
    requires g.head in g.nodes
    ensures v == Passes ==> IsWeak(g)
    ensures v == Fails ==> !IsWeak(g)
    ensures v == Hangs ==> HasTrap(g)
    ensures v == KeyFails ==> !Malformed(g) && !PoolsCover(g)
  {
    hide HasTrap, Malformed, PoolsCover, LevelOf, WellFormed, Unexplainable, Forks, FifoOrdered, ExactReach, Strongest, AllPairs;
    ConvergenceExact(g);
    ghost var reachable;
    v, reachable := AssertLevels(g, NPO, Unrelated);
    if v != Hangs && v != KeyFails && LevelOf(g) != Invalid {
      LevelsExact(g, reachable);
    }
  }
}
