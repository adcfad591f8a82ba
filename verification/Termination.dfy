/** How long the traversal loop can run, and what a node pushed twice does to it. */
module Termination {
  import opened OrderingGraph
  import opened Sets
  import opened Traversal

  // ---------- progress ----------

  /** Colour changes left. */
  ghost function Work(g: Graph, s: Dfs): nat
    requires Formed(g, s)
  {
    |Unseen(s.color)| + |Unfinished(s.color)|
  }

  ghost function Unseen(color: map<int, int>): set<int> {
    set u | u in color && color[u] == 0
  }

  ghost function Unfinished(color: map<int, int>): set<int> {
    set u | u in color && color[u] != 2
  }

  lemma {:induction false} Recolor(color: map<int, int>, u: int)
    requires u in color
    ensures color[u] == 0 ==>
      Unseen(color) == Unseen(color[u := 1]) + {u} && u !in Unseen(color[u := 1]) && Unfinished(color) == Unfinished(color[u := 1])
    ensures color[u] == 1 ==>
      Unseen(color) == Unseen(color[u := 2]) && Unfinished(color) == Unfinished(color[u := 2]) + {u} && u !in Unfinished(color[u := 2])
  {
  }

  lemma {:induction false} StepShrinks(g: Graph, s: Dfs, order: seq<int>)
    requires CanStep(g, s, order) && !Wedged(g, s)
    ensures Work(g, Step(g, s, order)) == Work(g, s) - 1
  {
    hide Fatal, IsOrder, Unseen, Unfinished;
    Recolor(s.color, Top(s));
  }

  lemma {:induction false} FinishShrinks(g: Graph, s: Dfs)
    requires Formed(g, s) && s.stack != [] && s.color[Top(s)] == 1
    ensures Work(g, Finish(g, s)) == Work(g, s) - 1
  {
    StepShrinks(g, s, []);
  }

  lemma {:induction false} StartWork(g: Graph)
    requires g.head in g.nodes
    ensures Work(g, Start(g)) == 2 * |g.nodes|
  {
    assert Unseen(Start(g).color) == g.nodes.Keys;
    assert Unfinished(Start(g).color) == g.nodes.Keys;
  }

  /** The body does nothing when the node on top is already finished. */
  lemma {:induction false} WedgedForever(g: Graph, orders: seq<seq<int>>, order: seq<int>)
    requires g.head in g.nodes && Legal(g, orders) && Wedged(g, At(g, orders))
    ensures Legal(g, orders + [order]) && At(g, orders + [order]) == At(g, orders)
  {
    Extend(g, orders, order);
  }

  // ---------- nodes pushed twice ----------

  lemma {:induction false} FrameOf(stack: seq<int>, trail: seq<nat>, n: nat, q: nat) returns (i: nat)
    requires 0 < n <= |trail| && trail[0] < q < |stack| && q !in trail
    requires forall i, j :: 0 <= i < j < |trail| ==> trail[i] < trail[j]
    requires n < |trail| ==> q < trail[n]
    ensures i < n && InFrame(stack, trail, i, q)
  {
    if trail[n - 1] < q {
      i := n - 1;
    } else {
      assert trail[n - 1] in trail;
      i := FrameOf(stack, trail, n - 1, q);
    }
  }

  lemma {:induction false} LongWalk(g: Graph, w: int, u: int, x: int)
    requires Reach(g, g.head, w) && Edge(g, w, x) && ReachPlus(g, w, u) && Edge(g, u, x)
    ensures HasBypass(g)
  {
    var p :| Links(g, p, w, u, 1);
    Joined(g, p, [u, x], w, u, x, 1, 1);
    assert Bypass(g, w, x, p + [u, x][1..]);
  }

  /** Pushing a node that already waits on the stack needs a bypassed edge. */
  lemma {:induction false} PushedTwice(g: Graph, s: Dfs, trail: seq<nat>, order: seq<int>, q: nat, x: int)
    requires Inv(g, s, trail) && Fresh(g, s, order)
    requires q < |s.stack| && q !in trail && s.stack[q] == x && x in order
    ensures HasBypass(g)
  {
    hide PromiseOk, FinishedOk, ColorOk, ReachPlus, Reach;
    var u := Top(s);
    FreshEdges(g, s, order);
    assert ColorOk(s.stack, trail, s.color);
    TrailBelow(s, trail);
    assert trail != [] && q < |s.stack| - 1;
    assert 0 in trail by { assert trail[0] == 0; }
    var i := FrameOf(s.stack, trail, |trail|, q);
    var w := s.stack[trail[i]];
    assert Edge(g, w, x);
    assert Reach(g, g.head, w);
    TrailReaches(g, s.stack, trail, i, |trail| - 1);
    assert InFrame(s.stack, trail, |trail| - 1, |s.stack| - 1);
    ReachThenEdge(g, w, s.stack[trail[|trail| - 1]], u);
    LongWalk(g, w, u, x);
  }

  /** A finished node, or two copies of one node, on the stack: it can never empty. */
  ghost predicate Doomed(s: Dfs) {
    || (exists i :: 0 <= i < |s.stack| && s.stack[i] in s.color && s.color[s.stack[i]] == 2)
    || !Distinct(s.stack)
  }

  lemma {:induction false} StaysDoomed(g: Graph, s: Dfs, order: seq<int>)
    requires CanStep(g, s, order) && Doomed(s)
    ensures Doomed(Step(g, s, order))
  {
    hide Fatal, IsOrder, Unvisited, WithParent, Below;
    var s', m := Step(g, s, order), |s.stack| - 1;
    if i :| 0 <= i < |s.stack| && s.stack[i] in s.color && s.color[s.stack[i]] == 2 {
      assert s'.stack[i] == s.stack[i] && s'.color[s'.stack[i]] == 2;
    } else {
      var i, j :| 0 <= i < j < |s.stack| && s.stack[i] == s.stack[j];
      if s.color[Top(s)] == 0 {
        assert s'.stack[i] == s'.stack[j];
      } else if j < m {
        assert s'.stack[i] == s'.stack[j];
      } else {
        assert s'.stack[i] == Top(s) && s'.color[s'.stack[i]] == 2;
      }
    }
  }

  ghost predicate Clean(g: Graph) {
    g.head in g.nodes && !Dangling(g) && !Cyclic(g)
  }

  lemma {:induction false} DoomedRun(g: Graph, orders: seq<seq<int>>, n: nat)
    requires g.head in g.nodes && n <= |orders| && Legal(g, orders) && Legal(g, orders[..n]) && Doomed(At(g, orders[..n]))
    ensures Doomed(At(g, orders))
  {
    hide Doomed, Step, CanStep, Legal, At;
    if n == |orders| {
      assert orders[..n] == orders;
    } else {
      LastStep(g, orders);
      var before := orders[..|orders| - 1];
      assert before[..n] == orders[..n];
      DoomedRun(g, before, n);
      StaysDoomed(g, At(g, before), orders[|orders| - 1]);
    }
  }

  /** After a doomed state of a clean graph a run never returns. */
  lemma {:induction false} DoomedNeverReturns(g: Graph, orders: seq<seq<int>>, n: nat)
    requires Clean(g) && n <= |orders| && Legal(g, orders) && Legal(g, orders[..n]) && Doomed(At(g, orders[..n]))
    ensures var s := At(g, orders); s.stack != [] && !Fatal(g, s)
  {
    hide Dangling, Cyclic, Inv, Fatal, Legal, At;
    DoomedRun(g, orders, n);
    var s := At(g, orders);
    assert s.stack != [];
    if Fatal(g, s) {
      var trail := RunInv(g, orders);
      FatalIsBad(g, s, trail);
    }
  }

  lemma {:induction false} LastStep(g: Graph, orders: seq<seq<int>>)
    requires g.head in g.nodes && Legal(g, orders) && orders != []
    ensures var before, order := orders[..|orders| - 1], orders[|orders| - 1];
      Legal(g, before) && CanStep(g, At(g, before), order) && At(g, orders) == Step(g, At(g, before), order)
  {
  }
}
