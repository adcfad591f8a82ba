/** The one-pass relationship check and the linearizability assertion. */
module Relationship {
  import opened OrderingGraph
  import opened Sets
  import opened Consistency

  // ---------- violating pairs ----------

  /** `b` was requested after `a` was answered, but is not ordered after it. */
  predicate BreaksRT(g: Graph, reachable: map<int, set<int>>, a: int, b: int)
    requires a in g.nodes && b in g.nodes && a in reachable
  {
    a != b && g.nodes[a].tsResp < g.nodes[b].tsReq && b !in reachable[a]
  }

  predicate BreaksCASL(g: Graph, reachable: map<int, set<int>>, a: int, b: int)
    requires a in g.nodes && b in g.nodes && a in reachable
  {
    BreaksRT(g, reachable, a, b) && g.nodes[a].cId == g.nodes[b].cId
  }

  predicate BreaksFIFO(g: Graph, reachable: map<int, set<int>>, a: int, b: int)
    requires a in g.nodes && b in g.nodes && a in reachable
  {
    BreaksCASL(g, reachable, a, b) && !(g.nodes[a].op.typ == OpRead && g.nodes[b].op.typ == OpWrite)
  }

  /** Pairs of nodes among `seen`. */
  ghost predicate Pairs(g: Graph, reachable: map<int, set<int>>, seen: set<(int, int)>) {
    reachable.Keys == g.nodes.Keys && forall p :: p in seen ==> p.0 in g.nodes && p.1 in g.nodes
  }

  /** The strongest level that no pair of `seen` violates. */
  ghost function Strongest(g: Graph, reachable: map<int, set<int>>, seen: set<(int, int)>): RelationshipLevel
    requires Pairs(g, reachable, seen)
  {
    if !(exists p :: p in seen && BreaksRT(g, reachable, p.0, p.1)) then RT
    else if !(exists p :: p in seen && BreaksCASL(g, reachable, p.0, p.1)) then CASL
    else if !(exists p :: p in seen && BreaksFIFO(g, reachable, p.0, p.1)) then FIFO
    else Unrelated
  }

  ghost function AllPairs(g: Graph): set<(int, int)> {
    set a, b | a in g.nodes && b in g.nodes :: (a, b)
  }

  /** One pair seen at its own level lowers the level exactly as far as it must. */
  function Lower(g: Graph, reachable: map<int, set<int>>, level: RelationshipLevel, a: int, b: int): RelationshipLevel
    requires a in g.nodes && b in g.nodes && a in reachable
  {
    var l1 := if level == RT && BreaksRT(g, reachable, a, b) then CASL else level;
    var l2 := if l1 == CASL && BreaksCASL(g, reachable, a, b) then FIFO else l1;
    if l2 == FIFO && BreaksFIFO(g, reachable, a, b) then Unrelated else l2
  }

  lemma {:induction false} LowerIsExact(g: Graph, reachable: map<int, set<int>>, seen: set<(int, int)>, a: int, b: int)
    requires Pairs(g, reachable, seen) && a in g.nodes && b in g.nodes
    ensures Pairs(g, reachable, seen + {(a, b)})
    ensures Strongest(g, reachable, seen + {(a, b)}) == Lower(g, reachable, Strongest(g, reachable, seen), a, b)
  {
    var more, q := seen + {(a, b)}, (a, b);
    assert q in more;
    forall p | p in more
      ensures p in seen || p == q
    {
    }
    if p :| p in seen && BreaksRT(g, reachable, p.0, p.1) {
      assert p in more;
    }
    if p :| p in seen && BreaksCASL(g, reachable, p.0, p.1) {
      assert p in more;
    }
    if p :| p in seen && BreaksFIFO(g, reachable, p.0, p.1) {
      assert p in more;
    }
  }

  lemma {:induction false} UnrelatedStays(g: Graph, reachable: map<int, set<int>>, some: set<(int, int)>,
      all: set<(int, int)>)
    requires Pairs(g, reachable, all) && some <= all && Pairs(g, reachable, some)
    requires Strongest(g, reachable, some) == Unrelated
    ensures Strongest(g, reachable, all) == Unrelated
  {
    var p :| p in some && BreaksFIFO(g, reachable, p.0, p.1);
    assert p in all && BreaksCASL(g, reachable, p.0, p.1) && BreaksRT(g, reachable, p.0, p.1);
  }

  /** Visits all pairs in any order, testing each pair only at the current level. */
  method RelationshipConformity(g: Graph, reachable: map<int, set<int>>) returns (level: RelationshipLevel)
    requires reachable.Keys == g.nodes.Keys
    ensures Pairs(g, reachable, AllPairs(g)) && level == Strongest(g, reachable, AllPairs(g))
  {
    level := RT;
    hide Lower, Strongest, BreaksRT, BreaksCASL, BreaksFIFO;
    var outer := g.nodes.Keys;
    ghost var seen: set<(int, int)> := {};
    NothingSeen(g, reachable);
    while outer != {}
      invariant outer <= g.nodes.Keys
      invariant seen == set a, b | a in g.nodes && a !in outer && b in g.nodes :: (a, b)
      invariant Pairs(g, reachable, seen) && level == Strongest(g, reachable, seen) && level != Unrelated
      decreases |outer|
    {
      var na := TakeAny(outer);
      assert na in g.nodes;
      var inner := g.nodes.Keys;
      ghost var before := seen;
      while inner != {}
        invariant inner <= g.nodes.Keys
        invariant seen == before + set b | b in g.nodes && b !in inner :: (na, b)
        invariant Pairs(g, reachable, seen) && level == Strongest(g, reachable, seen) && level != Unrelated
        decreases |inner|
      {
        var nb := TakeAny(inner);
        assert nb in g.nodes;
        inner := inner - {nb};
        LowerIsExact(g, reachable, seen, na, nb);
        seen := seen + {(na, nb)};
        var lowered := LowerByPair(g, reachable, level, na, nb);
        level := lowered;
        if level == Unrelated {
          assert seen <= AllPairs(g);
          UnrelatedStays(g, reachable, seen, AllPairs(g));
          return;
        }
      }
      outer := outer - {na};
    }
    assert seen == AllPairs(g);
  }

  lemma {:induction false} NothingSeen(g: Graph, reachable: map<int, set<int>>)
    requires reachable.Keys == g.nodes.Keys
    ensures Pairs(g, reachable, {}) && Strongest(g, reachable, {}) == RT
  {
  }

  /** The three tests in a row; a level lowered by one test is tested by the next. */
  method LowerByPair(g: Graph, reachable: map<int, set<int>>, before: RelationshipLevel, na: int, nb: int)
    returns (level: RelationshipLevel)
    requires na in g.nodes && nb in g.nodes && na in reachable
    ensures level == Lower(g, reachable, before, na, nb)
  {
    level := before;
    if na == nb {
      return;
    }
    var a, b := g.nodes[na], g.nodes[nb];
    if level == RT && a.tsResp < b.tsReq && nb !in reachable[na] {
      level := CASL;
    }
    if level == CASL && a.cId == b.cId && a.tsResp < b.tsReq && nb !in reachable[na] {
      level := FIFO;
    }
    if level == FIFO && a.cId == b.cId && a.tsResp < b.tsReq && !(a.op.typ == OpRead && b.op.typ == OpWrite)
       && nb !in reachable[na] {
      level := Unrelated;
    }
  }

  // ---------- what the levels mean ----------

  /** `a` was answered before `b` was requested. */
  predicate Before(g: Graph, a: int, b: int)
    requires a in g.nodes && b in g.nodes
  {
    a != b && g.nodes[a].tsResp < g.nodes[b].tsReq
  }

  /** Whatever was answered before another was requested leads to it. */
  ghost predicate TimeOrdered(g: Graph) {
    forall a, b :: a in g.nodes && b in g.nodes && Before(g, a, b) ==> ReachPlus(g, a, b)
  }

  /** The same within each client. */
  ghost predicate SessionOrdered(g: Graph) {
    forall a, b :: a in g.nodes && b in g.nodes && Before(g, a, b) && g.nodes[a].cId == g.nodes[b].cId ==> ReachPlus(g, a, b)
  }

  /** The same within each client, except that a write need not follow an earlier read. */
  ghost predicate FifoOrdered(g: Graph) {
    forall a, b :: a in g.nodes && b in g.nodes && Before(g, a, b) && g.nodes[a].cId == g.nodes[b].cId ==>
      ReachPlus(g, a, b) || (g.nodes[a].op.typ == OpRead && g.nodes[b].op.typ == OpWrite)
  }

  /** The levels, on every graph, in terms of walks. */
  lemma {:induction false} LevelsExact(g: Graph, reachable: map<int, set<int>>)
    requires ExactReach(g, reachable) && Pairs(g, reachable, AllPairs(g))
    ensures var level := Strongest(g, reachable, AllPairs(g));
      && (level == RT <==> TimeOrdered(g))
      && (level == RT || level == CASL <==> SessionOrdered(g))
      && (level != Unrelated <==> FifoOrdered(g))
  {
    hide ReachPlus;
    forall a, b | a in g.nodes && b in g.nodes
      ensures BreaksRT(g, reachable, a, b) <==> Before(g, a, b) && !ReachPlus(g, a, b)
      ensures (a, b) in AllPairs(g)
    {
    }
    hide ExactReach, AllPairs;
    var pairs := AllPairs(g);
    if a, b :| a in g.nodes && b in g.nodes && BreaksRT(g, reachable, a, b) {
      var p := (a, b);
      assert p in pairs && BreaksRT(g, reachable, p.0, p.1);
    }
    if a, b :| a in g.nodes && b in g.nodes && BreaksCASL(g, reachable, a, b) {
      var p := (a, b);
      assert p in pairs && BreaksCASL(g, reachable, p.0, p.1);
    }
    if a, b :| a in g.nodes && b in g.nodes && BreaksFIFO(g, reachable, a, b) {
      var p := (a, b);
      assert p in pairs && BreaksFIFO(g, reachable, p.0, p.1);
    }
  }
}
