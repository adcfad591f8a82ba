/** Every trap lets some edge order drive the traversal into an endless loop, so traps
    are exactly what makes the loop diverge. */
module Divergence {
  import opened OrderingGraph
  import opened Sets
  import opened Traversal
  import opened Termination
  import opened Trap

  // ---------- choosing edge orders ----------

  lemma {:induction false} OrderEndingInTwo(next: set<int>, x: int, y: int) returns (order: seq<int>)
    requires x in next && y in next && x != y
    ensures IsOrder(order, next) && |order| > 1 && order[|order| - 2] == x && order[|order| - 1] == y
  {
    var some := OrderEndingIn(next - {y}, x);
    order := some + [y];
    forall z | z in next
      ensures z in order
    {
      if z != y {
        assert z in next - {y};
        assert z in some;
      }
    }
    assert forall i :: 0 <= i < |some| ==> some[i] in next - {y};
    DistinctAppend(some, [y]);
  }

  // ---------- following a sound walk ----------

  /** Just the nodes of `p` are in progress, and none is finished. */
  ghost predicate PathColored(color: map<int, int>, p: seq<int>) {
    forall v :: v in color ==> color[v] == if v in p then 1 else 0
  }

  lemma {:induction false} ColorNext(color: map<int, int>, p: seq<int>, u: int)
    requires PathColored(color, p) && u in color
    ensures PathColored(color[u := 1], p + [u])
  {
  }

  /** The traversal went straight down `h` and is about to visit `h[n]`. */
  ghost predicate Following(s: Dfs, h: seq<int>, n: nat)
    requires n < |h|
  {
    s.stack != [] && Top(s) == h[n] && PathColored(s.color, h[..n])
  }

  lemma {:induction false} AllUnvisited(color: map<int, int>, order: seq<int>)
    requires forall i :: 0 <= i < |order| ==> order[i] in color && color[order[i]] == 0
    ensures Unvisited(color, order) == order
  {
    if order != [] {
      AllUnvisited(color, order[..|order| - 1]);
    }
  }

  /** Visiting pushes every child when all are unvisited. */
  lemma {:induction false} PushesAll(g: Graph, s: Dfs, order: seq<int>)
    requires CanStep(g, s, order) && s.color[Top(s)] == 0
    requires forall x :: x in g.nodes[Top(s)].next ==> x in g.nodes && x != Top(s) && s.color[x] == 0
    ensures Step(g, s, order).stack == s.stack + order && Step(g, s, order).color == s.color[Top(s) := 1]
  {
    hide Fatal;
    var color := s.color[Top(s) := 1];
    forall i | 0 <= i < |order|
      ensures order[i] in color && color[order[i]] == 0
    {
      var x := order[i];
      assert x in g.nodes[Top(s)].next;
      assert x in g.nodes && x != Top(s) && s.color[x] == 0;
    }
    AllUnvisited(color, order);
  }

  /** On a sound walk every child of the next node is still unvisited. */
  lemma {:induction false} FreshChildren(g: Graph, s: Dfs, h: seq<int>, n: nat)
    requires Sound(g, h) && n < |h| && Formed(g, s) && Following(s, h, n)
    ensures s.color[h[n]] == 0 && !Fatal(g, s)
    ensures forall x :: x in g.nodes[h[n]].next ==> x in g.nodes && x != h[n] && s.color[x] == 0
  {
    if n > 0 {
      assert Edge(g, h[n - 1], h[n - 1 + 1]);
      assert h[n] !in h[..n - 1 + 1];
    }
    forall x | x in g.nodes[h[n]].next
      ensures x in g.nodes && x != h[n] && s.color[x] == 0
    {
      assert Edge(g, h[n], x);
      assert h[..n + 1] == h[..n] + [h[n]];
    }
  }

  lemma {:induction false} FollowOne(g: Graph, s: Dfs, h: seq<int>, n: nat, order: seq<int>)
    requires Sound(g, h) && n < |h| && Formed(g, s) && Following(s, h, n)
    requires IsOrder(order, g.nodes[h[n]].next)
    ensures CanStep(g, s, order)
    ensures Step(g, s, order).stack == s.stack + order
    ensures n + 1 < |h| && order != [] && order[|order| - 1] == h[n + 1] ==> Following(Step(g, s, order), h, n + 1)
  {
    FreshChildren(g, s, h, n);
    hide Fatal, Step, Sound, IsOrder;
    PushesAll(g, s, order);
    hide PathColored;
    assert h[..n + 1] == h[..n] + [h[n]];
    ColorNext(s.color, h[..n], h[n]);
  }

  lemma {:induction false} StartFollows(g: Graph, h: seq<int>)
    requires g.head in g.nodes && |h| > 0 && h[0] == g.head
    ensures Legal(g, []) && Following(At(g, []), h, 0)
  {
    assert h[..0] == [];
  }

  lemma {:induction false} FollowPath(g: Graph, h: seq<int>, n: nat) returns (orders: seq<seq<int>>)
    requires g.head in g.nodes && Sound(g, h) && n < |h|
    ensures Legal(g, orders) && Following(At(g, orders), h, n)
  {
    hide Following, Legal, At, CanStep, Step, Formed;
    if n == 0 {
      orders := [];
      StartFollows(g, h);
    } else {
      orders := FollowPath(g, h, n - 1);
      assert Edge(g, h[n - 1], h[n - 1 + 1]);
      var order := OrderEndingIn(g.nodes[h[n - 1]].next, h[n]);
      FollowOne(g, At(g, orders), h, n - 1, order);
      Extend(g, orders, order);
      orders := orders + [order];
    }
  }

  // ---------- running the clean branch ----------

  /** On top of `base` lies `y` with only nodes it reaches, until `y` is finished. */
  ghost predicate Within(g: Graph, s: Dfs, base: seq<int>, y: int) {
    && base <= s.stack
    && (|base| < |s.stack| ==> s.stack[|base|] == y && forall q :: |base| <= q < |s.stack| ==> Reach(g, y, s.stack[q]))
    && (s.stack == base ==> y in s.color && s.color[y] == 2)
  }

  lemma {:induction false} CleanNotFatal(g: Graph, s: Dfs, trail: seq<nat>, y: int)
    requires Inv(g, s, trail) && s.stack != [] && Reach(g, y, Top(s)) && CleanFrom(g, y)
    ensures !Fatal(g, s)
  {
    hide Reach, ReachPlus, TrailOk, ColorOk, SiblingsOk, PromiseOk, FinishedOk, SeenOk;
    var u := Top(s);
    if Fatal(g, s) {
      var x :| x in g.nodes[u].next && BadEdge(g, s, x);
      assert Edge(g, u, x);
      ReachThenEdge(g, y, u, x);
      assert x in g.nodes;
      if x == u {
        EdgeReaches(g, u, u);
      } else {
        BackEdge(g, s, trail, x);
        ReachThenEdge(g, x, u, x);
      }
    }
  }

  lemma {:induction false} StaysWithin(g: Graph, s: Dfs, base: seq<int>, y: int, order: seq<int>)
    requires CanStep(g, s, order) && Within(g, s, base, y) && |base| < |s.stack| && !Wedged(g, s)
    ensures Within(g, Step(g, s, order), base, y)
  {
    hide Reach, Fatal, Unvisited, Below, WithParent;
    var s', u, m := Step(g, s, order), Top(s), |s.stack| - 1;
    if s.color[u] == 0 {
      var more := Unvisited(s'.color, order);
      UnvisitedExact(s'.color, order);
      FreshEdges(g, s, order);
      forall q | |base| <= q < |s'.stack|
        ensures Reach(g, y, s'.stack[q])
      {
        if q > m {
          assert s'.stack[q] == more[q - m - 1];
          assert Reach(g, y, s.stack[m]);
          ReachThenEdge(g, y, u, s'.stack[q]);
        }
      }
    } else {
      assert s'.stack == s.stack[..m];
    }
  }

  /** Once `y` is finished, so is everything it leads to. */
  lemma {:induction false} BranchDone(g: Graph, s: Dfs, base: seq<int>, x: int, y: int)
    requires Formed(g, s) && FinishedOk(g, s.color, s.reachable) && Within(g, s, base, y) && s.stack == base
    requires base != [] && base[|base| - 1] == x && ReachPlus(g, y, x)
    ensures Wedged(g, s)
  {
    FinishedClean(g, s, y);
    var p :| Links(g, p, y, x, 1);
    assert Links(g, p, y, x, 0);
  }

  lemma {:induction false} RunBranch(g: Graph, orders: seq<seq<int>>, base: seq<int>, x: int, y: int)
    returns (orders': seq<seq<int>>)
    requires g.head in g.nodes && Legal(g, orders) && Within(g, At(g, orders), base, y)
    requires base != [] && base[|base| - 1] == x && ReachPlus(g, y, x) && CleanFrom(g, y)
    ensures Legal(g, orders') && Wedged(g, At(g, orders'))
    decreases Work(g, At(g, orders))
  {
    hide Legal, At, ReachPlus, Reach, CleanFrom, TrailOk, ColorOk, SiblingsOk, PromiseOk, FinishedOk, SeenOk, Work, Fatal;
    var s := At(g, orders);
    var trail := RunInv(g, orders);
    if s.stack == base {
      BranchDone(g, s, base, x, y);
      orders' := orders;
    } else if Wedged(g, s) {
      orders' := orders;
    } else {
      assert Reach(g, y, s.stack[|s.stack| - 1]);
      CleanNotFatal(g, s, trail, y);
      var order := SomeOrder(g.nodes[Top(s)].next);
      Extend(g, orders, order);
      StaysWithin(g, s, base, y, order);
      StepShrinks(g, s, order);
      orders' := RunBranch(g, orders + [order], base, x, y);
    }
  }

  // ---------- exactness ----------

  lemma {:induction false} BranchesDiffer(g: Graph, x: int, y: int)
    requires ReachPlus(g, y, x) && CleanFrom(g, y)
    ensures x != y
  {
    ReachSelf(g, y);
  }

  lemma {:induction false} BranchStarts(g: Graph, s: Dfs, base: seq<int>, y: int)
    requires s.stack == base + [y]
    ensures Within(g, s, base, y)
  {
    ReachSelf(g, y);
  }

  lemma {:induction false} ForkStack(stack: seq<int>, order: seq<int>, x: int, y: int) returns (base: seq<int>)
    requires |order| > 1 && order[|order| - 2] == x && order[|order| - 1] == y
    ensures stack + order == base + [y] && base != [] && base[|base| - 1] == x
  {
    base := stack + order[..|order| - 1];
  }

  /** The fork of a trap can be reached and visited so that `y` lies on top and `x` next. */
  lemma {:induction false} ReachFork(g: Graph, h: seq<int>, x: int, y: int)
    returns (orders: seq<seq<int>>, base: seq<int>)
    requires g.head in g.nodes && Sound(g, h) && x != y
    requires Edge(g, h[|h| - 1], x) && Edge(g, h[|h| - 1], y)
    ensures Legal(g, orders) && At(g, orders).stack == base + [y] && base != [] && base[|base| - 1] == x
  {
    assert |h| > 0;
    var n := |h| - 1;
    assert h[n] in g.nodes && x in g.nodes[h[n]].next && y in g.nodes[h[n]].next;
    hide *;
    orders := FollowPath(g, h, n);
    var s := At(g, orders);
    var order := OrderEndingInTwo(g.nodes[h[n]].next, x, y);
    FollowOne(g, s, h, n, order);
    Extend(g, orders, order);
    orders := orders + [order];
    base := ForkStack(s.stack, order, x, y);
  }

  /** Visiting the clean branch of a trap first leaves the other branch finished and waiting. */
  lemma {:induction false} TrapWedges(g: Graph, h: seq<int>, x: int, y: int) returns (orders: seq<seq<int>>)
    requires g.head in g.nodes && IsTrap(g, h, x, y)
    ensures Legal(g, orders) && Wedged(g, At(g, orders))
  {
    hide Legal, At, ReachPlus, CleanFrom, Within;
    BranchesDiffer(g, x, y);
    var base: seq<int>;
    orders, base := ReachFork(g, h, x, y);
    BranchStarts(g, At(g, orders), base, y);
    orders := RunBranch(g, orders, base, x, y);
  }

  /** Some edge order makes the loop run forever. */
  ghost predicate CanDiverge(g: Graph)
    requires g.head in g.nodes
  {
    exists orders :: Legal(g, orders) && Wedged(g, At(g, orders))
  }

  /** The loop ends under every edge order if and only if the graph has no trap. */
  lemma {:induction false} TerminationExact(g: Graph)
    requires g.head in g.nodes
    ensures CanDiverge(g) <==> HasTrap(g)
  {
    hide IsTrap, Legal, At;
    if h, x, y :| IsTrap(g, h, x, y) {
      var orders := TrapWedges(g, h, x, y);
    } else {
      forall orders | Legal(g, orders)
        ensures !Wedged(g, At(g, orders))
      {
        NoTrapTerminates(g, orders);
      }
    }
  }

  // ---------- traps and bypassed edges ----------

  /** In a clean graph, a walk from the head never meets its own nodes again. */
  lemma {:induction false} NoReturn(g: Graph, p: seq<int>, i: nat, j: nat, x: int)
    requires Clean(g) && Path(g, p) && p[0] == g.head && i <= j < |p| && Edge(g, p[j], x)
    ensures x in g.nodes && x != p[i]
  {
    SubPath(g, p, 0, j + 1);
    assert Links(g, p[0..j + 1], g.head, p[j], 0);
    SubPath(g, p, 0, i + 1);
    assert Links(g, p[0..i + 1], g.head, p[i], 0);
    if x == p[i] {
      SubPath(g, p, i, j + 1);
      assert Links(g, p[i..j + 1], p[i], p[j], 0);
      ReachThenEdge(g, p[i], p[j], p[i]);
    }
  }

  lemma {:induction false} CleanSound(g: Graph, h: seq<int>)
    requires Clean(g) && Path(g, h) && h[0] == g.head
    ensures Sound(g, h)
  {
    hide Clean;
    forall i, x | 0 <= i < |h| && Edge(g, h[i], x)
      ensures x in g.nodes && x !in h[..i + 1]
    {
      NoReturn(g, h, i, i, x);
      forall j | 0 <= j < i + 1
        ensures h[j] != x
      {
        NoReturn(g, h, j, i, x);
      }
    }
  }

  lemma {:induction false} CleanBelow(g: Graph, y: int)
    requires Clean(g) && ReachPlus(g, g.head, y)
    ensures CleanFrom(g, y)
  {
    var a :| Links(g, a, g.head, y, 1);
    forall v | Reach(g, y, v)
      ensures v in g.nodes && !ReachPlus(g, v, v)
    {
      var b :| Links(g, b, y, v, 0);
      Joined(g, a, b, g.head, y, v, 1, 0);
      var w := a + b[1..];
      assert |w| > 1 && w[|w| - 1] == v && Edge(g, w[|w| - 2], w[|w| - 2 + 1]);
      assert Links(g, w, g.head, v, 0);
      NoReturn(g, w, 0, |w| - 2, v);
    }
  }

  /** Where no dangling edge and no cycle is reachable, traps are just bypassed edges. */
  lemma {:induction false} CleanTraps(g: Graph)
    requires Clean(g)
    ensures HasTrap(g) <==> HasBypass(g)
  {
    if HasTrap(g) {
      TrapIsBypass(g);
    }
    if u, x, p :| Reach(g, g.head, u) && Bypass(g, u, x, p) {
      hide Clean, Sound, CleanFrom;
      var h :| Links(g, h, g.head, u, 0);
      CleanSound(g, h);
      var y := p[1];
      assert Edge(g, p[0], p[1]);
      SubPath(g, p, 1, |p|);
      assert Links(g, p[1..|p|], y, x, 1);
      ReachThenEdge(g, g.head, u, y);
      CleanBelow(g, y);
      assert IsTrap(g, h, x, y);
    }
  }
}
