/** Conformity of an ordering graph to convergence and relationship constraints. */
module Consistency {
  import opened OrderingGraph
  import opened Sets
  import opened Traversal
  import opened Termination
  import opened Trap
  import opened PoolCheck

  datatype ConvergenceLevel = SO | CPO | NPO | Invalid

  datatype RelationshipLevel = RT | CASL | FIFO | Unrelated

  /** The check returns, repeats forever at a finished node on top, or applies an
      operation to a pool without its key, which fails an assertion. */
  datatype Outcome = Returned(level: ConvergenceLevel, reachable: map<int, set<int>>) | LoopsForever | KeyMissing

  // ---------- what the levels mean ----------

  ghost predicate Malformed(g: Graph) {
    Dangling(g) || Cyclic(g) || Disconnected(g)
  }

  ghost predicate Branches(g: Graph) {
    exists u :: u in g.nodes && |g.nodes[u].next| > 1
  }

  ghost function LevelOf(g: Graph): ConvergenceLevel {
    if Malformed(g) then Invalid
    else if !AllJustified(g) then NPO
    else if Branches(g) then CPO
    else SO
  }

  ghost predicate ExactReach(g: Graph, reachable: map<int, set<int>>) {
    reachable.Keys == g.nodes.Keys && forall u, v :: u in g.nodes ==> (v in reachable[u] <==> ReachPlus(g, u, v))
  }

  // ---------- the traversal ----------

  method AddEach(a: set<int>, b: set<int>) returns (r: set<int>)
    ensures r == a + b
  {
    r := a;
    var todo := b;
    while todo != {}
      invariant todo <= b && r == a + (b - todo)
      decreases |todo|
    {
      var x := TakeAny(todo);
      todo := todo - {x};
      r := r + {x};
    }
  }

  lemma {:induction false} ParentAdd(parents: map<int, set<int>>, done: set<int>, u: int, x: int)
    requires x in parents && x !in done
    ensures var before := WithParent(parents, done, u);
      before.Keys == parents.Keys && before[x := before[x] + {u}] == WithParent(parents, done + {x}, u)
  {
  }

  lemma {:induction false} UnvisitedAdd(color: map<int, int>, order: seq<int>, x: int)
    ensures Unvisited(color, []) == []
    ensures Unvisited(color, order + [x]) == Unvisited(color, order) + if x in color && color[x] == 0 then [x] else []
  {
    assert (order + [x])[..|order|] == order;
  }

  lemma {:induction false} BelowNothing(reachable: map<int, set<int>>)
    ensures Below(reachable, {}) == {}
  {
  }

  lemma {:induction false} BelowAdd(reachable: map<int, set<int>>, done: set<int>, x: int)
    requires x in reachable
    ensures Below(reachable, done + {x}) == Below(reachable, done) + {x} + reachable[x]
  {
    forall v
      ensures v in Below(reachable, done + {x}) <==> v in Below(reachable, done) || v == x || v in reachable[x]
    {
      if v in reachable[x] {
        assert x in done + {x};
      }
      if y :| y in done && y in reachable && v in reachable[y] {
        assert y in done + {x};
      }
    }
  }

  /** The edges listed so far are distinct, none is left to do, and none is bad. */
  ghost predicate Listed(g: Graph, s: Dfs, next: set<int>, todo: set<int>, order: seq<int>)
    requires s.stack != []
  {
    && todo <= next && Distinct(order)
    && (forall i :: 0 <= i < |order| ==> order[i] in next && order[i] !in todo)
    && (forall x :: x in next && x !in todo ==> x in order && !BadEdge(g, s, x))
  }

  lemma {:induction false} ListOne(g: Graph, s: Dfs, next: set<int>, todo: set<int>, order: seq<int>, x: int)
    requires s.stack != [] && Listed(g, s, next, todo, order) && x in todo && !BadEdge(g, s, x)
    ensures Listed(g, s, next, todo - {x}, order + [x])
  {
    DistinctAppend(order, [x]);
    forall y | y in next && y !in todo - {x}
      ensures y in order + [x] && !BadEdge(g, s, y)
    {
      if y != x {
        assert y in order;
      }
    }
  }

  lemma {:induction false} ListStart(g: Graph, s: Dfs, next: set<int>, u: int)
    requires s.stack != []
    ensures Listed(g, s, next, next, []) && WithParent(s.parents, {}, u) == s.parents
  {
  }

  lemma {:induction false} ListEnd(g: Graph, s: Dfs, order: seq<int>)
    requires Formed(g, s) && s.stack != [] && Listed(g, s, g.nodes[Top(s)].next, {}, order)
    ensures CanStep(g, s, order)
  {
  }

  lemma {:induction false} BadIsFatal(g: Graph, s: Dfs, x: int)
    requires Formed(g, s) && s.stack != [] && s.color[Top(s)] == 0 && x in g.nodes[Top(s)].next && BadEdge(g, s, x)
    ensures Fatal(g, s)
  {
  }

  /** First visit: mark, list the out-edges in any order, push unvisited targets. */
  method VisitTop(g: Graph, s: Dfs) returns (ok: bool, s': Dfs, ghost order: seq<int>)
    requires Formed(g, s) && s.stack != [] && s.color[Top(s)] == 0
    ensures ok <==> !Fatal(g, s)
    ensures ok ==> CanStep(g, s, order) && s' == Step(g, s, order)
  {
    hide Listed, WithParent, Unvisited, Fatal, IsOrder;
    var curr := Top(s);
    var next := g.nodes[curr].next;
    var color, multi := s.color[curr := 1], s.multi || |next| > 1;
    var stack, parents := s.stack, s.parents;
    s', order := s, [];
    var todo := next;
    ListStart(g, s, next, curr);
    UnvisitedAdd(color, [], curr);
    assert next - todo == {} && s.stack + [] == s.stack;
    while todo != {}
      invariant todo <= next && Listed(g, s, next, todo, order)
      invariant parents == WithParent(s.parents, next - todo, curr)
      invariant stack == s.stack + Unvisited(color, order)
      decreases |todo|
    {
      var x := TakeAny(todo);
      if x !in g.nodes {
        BadIsFatal(g, s, x);
        return false, s, order;
      }
      ParentAdd(s.parents, next - todo, curr, x);
      assert next - (todo - {x}) == (next - todo) + {x};
      UnvisitedAdd(color, order, x);
      parents := parents[x := parents[x] + {curr}];
      if color[x] == 0 {
        stack := stack + [x];
      } else if color[x] == 1 {
        BadIsFatal(g, s, x);
        return false, s, order;
      }
      ListOne(g, s, next, todo, order, x);
      todo := todo - {x};
      order := order + [x];
    }
    assert next - todo == next;
    ListEnd(g, s, order);
    s' := s.(color := color, multi := multi, parents := parents, stack := stack);
    return true, s', order;
  }

  /** Second visit: every out-edge is done, so collect what is reachable and pop. */
  method FinishTop(g: Graph, s: Dfs) returns (s': Dfs)
    requires Formed(g, s) && s.stack != []
    requires forall x :: x in g.nodes[Top(s)].next ==> x in g.nodes && s.color[x] == 2
    ensures s' == Finish(g, s)
  {
    hide Below;
    var curr := Top(s);
    var next := g.nodes[curr].next;
    var found := s.reachable[curr];
    var todo := next;
    BelowNothing(s.reachable);
    assert next - todo == {};
    while todo != {}
      invariant todo <= next
      invariant found == s.reachable[curr] + Below(s.reachable, next - todo)
      decreases |todo|
    {
      var x := TakeAny(todo);
      assert x in next;
      assert s.color[x] == 2;
      var added := AddEach(found + {x}, s.reachable[x]);
      BelowAdd(s.reachable, next - todo, x);
      assert next - (todo - {x}) == (next - todo) + {x};
      todo := todo - {x};
      found := added;
    }
    assert next - todo == next;
    s' := s.(reachable := s.reachable[curr := found], color := s.color[curr := 2],
             done := s.done + 1, stack := s.stack[..|s.stack| - 1]);
  }

  // ---------- convergence ----------

  /** Once the stack is empty and no node was missed, all book-keeping is exact. */
  lemma {:induction false} EmptyBooks(g: Graph, s: Dfs, trail: seq<nat>)
    requires Inv(g, s, trail) && s.stack == []
    ensures s.done < |g.nodes| <==> Malformed(g)
    ensures !Malformed(g) ==>
      && ExactReach(g, s.reachable) && ParentsExact(g, s.parents)
      && (forall x :: x in g.nodes ==> Reach(g, g.head, x))
      && (s.multi <==> Branches(g))
  {
    EmptyIsExact(g, s, trail);
    hide Reach, ReachPlus, Dangling, Cyclic, TrailOk, ColorOk, SiblingsOk, PromiseOk, FinishedOk;
    if !Malformed(g) {
      assert forall u :: u in g.nodes ==> s.color[u] != 0;
      assert ParentsExact(g, s.parents) by {
        forall x, u | x in g.nodes
          ensures u in s.parents[x] <==> Edge(g, u, x)
        {
        }
      }
    }
  }

  /** Whenever the check returns, the level is exact and so is reachability. It fails to
      return only on graphs with a trap, and an operation can only meet a pool without
      its key on well-formed graphs with such an edge. */
  method ConvergenceConformity(g: Graph) returns (r: Outcome)
    requires g.head in g.nodes
    ensures r.LoopsForever? ==> HasTrap(g)
    ensures r.KeyMissing? ==> !Malformed(g) && !PoolsCover(g)
    ensures r.Returned? ==> r.level == LevelOf(g)
    ensures r.Returned? && r.level != Invalid ==> ExactReach(g, r.reachable)
  {
    hide Inv, Lineage, HasTrap, Work, PoolsCover, Fatal, Malformed, AllJustified, Branches, ExactReach, ParentsExact, Reach;
    var s := Start(g);
    ghost var trail: seq<nat> := [];
    StartInv(g);
    StartLineage(g);
    while s.stack != []
      invariant Formed(g, s) && Inv(g, s, trail) && Lineage(g, s.stack, trail, s.color)
      decreases Work(g, s)
    {
      var curr := Top(s);
      if s.color[curr] == 0 {
        var ok, s', order := VisitTop(g, s);
        if !ok {
          FatalIsBad(g, s, trail);
          BadIsMalformed(g);
          return Returned(Invalid, s.reachable);
        }
        StepShrinks(g, s, order);
        VisitLineage(g, s, trail, order);
        trail := VisitInv(g, s, trail, order);
        s := s';
      } else if s.color[curr] == 1 {
        TopOfTrail(g, s, trail);
        var s' := FinishTop(g, s);
        FinishShrinks(g, s);
        FinishLineage(g, s, trail);
        trail := FinishInv(g, s, trail);
        s := s';
      } else {
        WedgedIsTrap(g, s, trail);
        return LoopsForever;
      }
    }

    EmptyBooks(g, s, trail);
    if s.done < |g.nodes| {
      return Returned(Invalid, s.reachable);
    }
    var valid, walk := PoolsValid(g, s.parents);
    if valid == NoKey {
      return KeyMissing;
    }
    if valid == Unexplained {
      return Returned(NPO, s.reachable);
    }
    return Returned(if s.multi then CPO else SO, s.reachable);
  }

  lemma {:induction false} BadIsMalformed(g: Graph)
    requires Dangling(g) || Cyclic(g)
    ensures Malformed(g)
  {
  }
}
