/** The graphs on which the traversal can get stuck: a walk the traversal survives ends
    in a fork whose one branch, itself in order, leads to the other branch. */
module Trap {
  import opened OrderingGraph
  import opened Sets
  import opened Traversal
  import opened Termination

  /** Walking down `h` from the head, no edge on the way dangles or leads back. */
  ghost predicate Sound(g: Graph, h: seq<int>) {
    && Path(g, h) && h[0] == g.head
    && forall i, x :: 0 <= i < |h| && Edge(g, h[i], x) ==> x in g.nodes && x !in h[..i + 1]
  }

  /** Nothing reachable from `y` is missing or on a cycle. */
  ghost predicate CleanFrom(g: Graph, y: int) {
    forall v :: Reach(g, y, v) ==> v in g.nodes && !ReachPlus(g, v, v)
  }

  ghost predicate IsTrap(g: Graph, h: seq<int>, x: int, y: int) {
    && Sound(g, h) && Edge(g, h[|h| - 1], x) && Edge(g, h[|h| - 1], y)
    && ReachPlus(g, y, x) && CleanFrom(g, y)
  }

  ghost predicate HasTrap(g: Graph) {
    exists h, x, y :: IsTrap(g, h, x, y)
  }

  /** A trap's fork has an edge with a longer way around it. */
  lemma {:induction false} TrapIsBypass(g: Graph)
    requires HasTrap(g)
    ensures HasBypass(g)
  {
    var h, x, y :| IsTrap(g, h, x, y);
    var u := h[|h| - 1];
    assert Links(g, h, g.head, u, 0);
    var p :| Links(g, p, y, x, 1);
    Joined(g, [u, y], p, u, y, x, 1, 1);
    assert Bypass(g, u, x, [u, y] + p[1..]);
  }

  // ---------- where a visited node still on the stack comes from ----------

  /** No node in progress has an edge to itself or back down the trail. */
  ghost predicate NoBack(g: Graph, stack: seq<int>, trail: seq<nat>)
    requires forall i :: 0 <= i < |trail| ==> trail[i] < |stack|
  {
    forall i, j :: 0 <= j <= i < |trail| ==> !Edge(g, stack[trail[i]], stack[trail[j]])
  }

  ghost predicate FramesDistinct(stack: seq<int>, trail: seq<nat>) {
    forall i, q, r :: 0 <= i < |trail| && InFrame(stack, trail, i, q) && InFrame(stack, trail, i, r) && q < r ==>
      stack[q] != stack[r]
  }

  /** The `i`th node in progress has a child that leads to `z` and is finished or in progress. */
  ghost predicate Elsewhere(g: Graph, stack: seq<int>, trail: seq<nat>, color: map<int, int>, i: nat, z: int)
    requires forall i :: 0 <= i < |trail| ==> trail[i] < |stack|
    requires i < |trail|
  {
    exists y :: Edge(g, stack[trail[i]], y) && ReachPlus(g, y, z) && y in color &&
      (color[y] == 2 || (i + 1 < |trail| && y == stack[trail[i + 1]]))
  }

  ghost predicate StaleOk(g: Graph, stack: seq<int>, trail: seq<nat>, color: map<int, int>)
    requires forall i :: 0 <= i < |trail| ==> trail[i] < |stack|
  {
    forall i, q :: 0 <= i < |trail| && InFrame(stack, trail, i, q) && stack[q] in color && color[stack[q]] != 0 ==>
      Elsewhere(g, stack, trail, color, i, stack[q])
  }

  ghost predicate Lineage(g: Graph, stack: seq<int>, trail: seq<nat>, color: map<int, int>) {
    && (forall i :: 0 <= i < |trail| ==> trail[i] < |stack|)
    && NoBack(g, stack, trail)
    && FramesDistinct(stack, trail)
    && StaleOk(g, stack, trail, color)
    && (trail == [] && stack != [] ==> stack[0] in color && color[stack[0]] == 0)
  }

  lemma {:induction false} StartLineage(g: Graph)
    requires g.head in g.nodes
    ensures Lineage(g, Start(g).stack, [], Start(g).color)
  {
  }

  lemma {:induction false} UnvisitedDistinct(color: map<int, int>, order: seq<int>)
    requires Distinct(order)
    ensures Distinct(Unvisited(color, order))
  {
    if order != [] {
      var n := |order| - 1;
      UnvisitedDistinct(color, order[..n]);
      UnvisitedExact(color, order[..n]);
      var prev := Unvisited(color, order[..n]);
      forall i | 0 <= i < |prev|
        ensures prev[i] != order[n]
      {
        var k :| 0 <= k < n && order[..n][k] == prev[i];
        assert order[k] == prev[i];
      }
      DistinctAppend(prev, [order[n]]);
    }
  }

  // ---------- visiting ----------

  lemma {:induction false} VisitNoBack(g: Graph, stack: seq<int>, trail: seq<nat>, more: seq<int>)
    requires stack != [] && forall i :: 0 <= i < |trail| ==> trail[i] < |stack| - 1
    requires NoBack(g, stack, trail) && !Edge(g, stack[|stack| - 1], stack[|stack| - 1])
    requires forall j :: 0 <= j < |trail| ==> !Edge(g, stack[|stack| - 1], stack[trail[j]])
    ensures var s, t := stack + more, trail + [|stack| - 1];
      (forall i :: 0 <= i < |t| ==> t[i] < |s|) && NoBack(g, s, t)
  {
    var s, t := stack + more, trail + [|stack| - 1];
    assert forall i :: 0 <= i < |t| ==> s[t[i]] == stack[t[i]];
    forall i, j | 0 <= j <= i < |t|
      ensures !Edge(g, s[t[i]], s[t[j]])
    {
      if i < |trail| {
        assert !Edge(g, stack[trail[i]], stack[trail[j]]);
      }
    }
  }

  lemma {:induction false} VisitFrames(stack: seq<int>, trail: seq<nat>, more: seq<int>)
    requires stack != [] && FramesDistinct(stack, trail) && Distinct(more)
    requires forall i :: 0 <= i < |trail| ==> trail[i] < |stack| - 1
    ensures FramesDistinct(stack + more, trail + [|stack| - 1])
  {
    var s, t := stack + more, trail + [|stack| - 1];
    forall i, q, r | 0 <= i < |t| && InFrame(s, t, i, q) && InFrame(s, t, i, r) && q < r
      ensures s[q] != s[r]
    {
      if i < |trail| {
        assert InFrame(stack, trail, i, q) && InFrame(stack, trail, i, r);
        assert s[q] == stack[q] && s[r] == stack[r];
      } else {
        assert s[q] == more[q - |stack|] && s[r] == more[r - |stack|];
      }
    }
  }

  /** The child in progress of a node in progress leads to the node on top. */
  lemma {:induction false} ByTrail(g: Graph, stack: seq<int>, trail: seq<nat>, i: nat)
    requires TrailOk(g, stack, trail) && SiblingsOk(g, stack, trail) && i + 1 < |trail|
    requires trail[|trail| - 1] < |stack| - 1
    ensures Edge(g, stack[trail[i]], stack[trail[i + 1]])
    ensures ReachPlus(g, stack[trail[i + 1]], stack[|stack| - 1])
  {
    hide Reach, ReachPlus;
    var last := |trail| - 1;
    TrailReaches(g, stack, trail, i + 1, last);
    assert InFrame(stack, trail, last, |stack| - 1);
    ReachThenEdge(g, stack[trail[i + 1]], stack[trail[last]], stack[|stack| - 1]);
  }

  lemma {:induction false} KeepElsewhere(g: Graph, stack: seq<int>, trail: seq<nat>, color: map<int, int>, more: seq<int>,
      i: nat, z: int)
    requires stack != [] && forall j :: 0 <= j < |trail| ==> trail[j] < |stack|
    requires stack[|stack| - 1] in color && color[stack[|stack| - 1]] == 0
    requires i < |trail| && Elsewhere(g, stack, trail, color, i, z)
    ensures Elsewhere(g, stack + more, trail + [|stack| - 1], color[stack[|stack| - 1] := 1], i, z)
  {
    hide ReachPlus;
    var y :| Edge(g, stack[trail[i]], y) && ReachPlus(g, y, z) && y in color &&
      (color[y] == 2 || (i + 1 < |trail| && y == stack[trail[i + 1]]));
    var s, t := stack + more, trail + [|stack| - 1];
    assert s[t[i]] == stack[trail[i]];
    assert color[stack[|stack| - 1] := 1][y] == 2 || (i + 1 < |t| && y == s[t[i + 1]]);
  }

  /** A node about to be visited that also waits further down is found by the trail. */
  lemma {:induction false} NewElsewhere(g: Graph, stack: seq<int>, trail: seq<nat>, color: map<int, int>, more: seq<int>,
      i: nat)
    requires TrailOk(g, stack, trail) && SiblingsOk(g, stack, trail) && i + 1 < |trail|
    requires trail[|trail| - 1] < |stack| - 1 && stack[trail[i + 1]] in color
    ensures Elsewhere(g, stack + more, trail + [|stack| - 1], color, i, stack[|stack| - 1])
  {
    hide ReachPlus, SiblingsOk;
    ByTrail(g, stack, trail, i);
    var s, t, y := stack + more, trail + [|stack| - 1], stack[trail[i + 1]];
    assert s[t[i]] == stack[trail[i]] && y == s[t[i + 1]];
  }

  lemma {:induction false} VisitStale(g: Graph, s: Dfs, trail: seq<nat>, more: seq<int>, i: nat, q: nat)
    requires Inv(g, s, trail) && Lineage(g, s.stack, trail, s.color) && s.stack != [] && s.color[Top(s)] == 0
    requires i < |trail| && InFrame(s.stack, trail, i, q) && q < |s.stack| - 1
    requires s.color[Top(s) := 1][s.stack[q]] != 0
    ensures Elsewhere(g, s.stack + more, trail + [|s.stack| - 1], s.color[Top(s) := 1], i, s.stack[q])
  {
    hide PromiseOk, FinishedOk, SeenOk, ColorOk, TrailOk, SiblingsOk, NoBack, Elsewhere;
    TrailBelow(s, trail);
    assert i == |trail| - 1 ==> InFrame(s.stack, trail, i, |s.stack| - 1);
    if s.color[s.stack[q]] != 0 {
      KeepElsewhere(g, s.stack, trail, s.color, more, i, s.stack[q]);
    } else {
      assert i < |trail| - 1;
      NewElsewhere(g, s.stack, trail, s.color[Top(s) := 1], more, i);
    }
  }

  lemma {:induction false} VisitLineage(g: Graph, s: Dfs, trail: seq<nat>, order: seq<int>)
    requires Inv(g, s, trail) && Fresh(g, s, order) && Lineage(g, s.stack, trail, s.color)
    ensures var s' := Visit(g, s, order); Lineage(g, s'.stack, trail + [|s.stack| - 1], s'.color)
  {
    hide TrailOk, SiblingsOk, PromiseOk, FinishedOk, SeenOk, Fatal, NoBack, FramesDistinct, Elsewhere, Unvisited;
    var s', t, m := Visit(g, s, order), trail + [|s.stack| - 1], |s.stack| - 1;
    var more := Unvisited(s'.color, order);
    UnvisitedExact(s'.color, order);
    UnvisitedDistinct(s'.color, order);
    TrailBelow(s, trail);
    FreshEdges(g, s, order);
    VisitNoBack(g, s.stack, trail, more);
    VisitFrames(s.stack, trail, more);
    assert forall q :: m < q < |s'.stack| ==> s'.stack[q] == more[q - m - 1];
    forall i, q | 0 <= i < |t| && InFrame(s'.stack, t, i, q) && s'.stack[q] in s'.color && s'.color[s'.stack[q]] != 0
      ensures Elsewhere(g, s'.stack, t, s'.color, i, s'.stack[q])
    {
      assert i < |trail|;
      assert t[i + 1] <= m && InFrame(s.stack, trail, i, q);
      VisitStale(g, s, trail, more, i, q);
    }
  }

  // ---------- finishing ----------

  lemma {:induction false} FinishLineage(g: Graph, s: Dfs, trail: seq<nat>)
    requires Inv(g, s, trail) && s.stack != [] && s.color[Top(s)] == 1 && Lineage(g, s.stack, trail, s.color)
    ensures trail != []
    ensures var s' := Finish(g, s); Lineage(g, s'.stack, trail[..|trail| - 1], s'.color)
  {
    hide SiblingsOk, PromiseOk, FinishedOk, SeenOk, ColorOk, Below, ReachPlus;
    TopOfTrail(g, s, trail);
    var s', t := Finish(g, s), trail[..|trail| - 1];
    forall i | 0 <= i < |t|
      ensures t[i] < |s'.stack| && s'.stack[t[i]] == s.stack[trail[i]]
    {
      assert trail[i] < trail[|trail| - 1];
    }
    forall i, q | 0 <= i < |t| && InFrame(s'.stack, t, i, q)
      ensures InFrame(s.stack, trail, i, q) && s'.stack[q] == s.stack[q]
      ensures s'.stack[q] in s'.color && s'.color[s'.stack[q]] != 0 ==>
        Elsewhere(g, s'.stack, t, s'.color, i, s'.stack[q])
    {
      assert InFrame(s.stack, trail, i, q);
      if s'.stack[q] in s'.color && s'.color[s'.stack[q]] != 0 {
        FinishStale(g, s, trail, i, q);
      }
    }
    assert NoBack(g, s'.stack, t);
    assert t == [] ==> s'.stack == [] by {
      assert t == [] ==> trail[0] == 0;
    }
  }

  lemma {:induction false} FinishStale(g: Graph, s: Dfs, trail: seq<nat>, i: nat, q: nat)
    requires Formed(g, s) && s.stack != [] && s.color[Top(s)] == 1 && Lineage(g, s.stack, trail, s.color)
    requires trail != [] && trail[|trail| - 1] == |s.stack| - 1
    requires forall k :: 0 <= k < |trail| - 1 ==> trail[k] < |s.stack| - 1
    requires i < |trail| - 1 && InFrame(s.stack, trail, i, q)
    requires s.color[s.stack[q]] != 0
    ensures Elsewhere(g, s.stack[..|s.stack| - 1], trail[..|trail| - 1], s.color[Top(s) := 2], i, s.stack[q])
  {
    hide ReachPlus, NoBack, FramesDistinct;
    var stack, t, color := s.stack[..|s.stack| - 1], trail[..|trail| - 1], s.color[Top(s) := 2];
    var y :| Edge(g, s.stack[trail[i]], y) && ReachPlus(g, y, s.stack[q]) && y in s.color &&
      (s.color[y] == 2 || (i + 1 < |trail| && y == s.stack[trail[i + 1]]));
    assert stack[t[i]] == s.stack[trail[i]];
    assert color[y] == 2 || (i + 1 < |t| && y == stack[t[i + 1]]);
  }

  // ---------- a stuck traversal has found a trap ----------

  lemma {:induction false} FinishedClean(g: Graph, s: Dfs, y: int)
    requires Formed(g, s) && FinishedOk(g, s.color, s.reachable) && y in g.nodes && s.color[y] == 2
    ensures CleanFrom(g, y)
    ensures forall v :: Reach(g, y, v) ==> v in g.nodes && s.color[v] == 2
  {
    hide ReachPlus;
    var finished := Finished(s.color);
    assert Closed(g, finished);
    forall v | Reach(g, y, v)
      ensures v in finished
    {
      var p :| Links(g, p, y, v, 0);
      ClosedKeeps(g, finished, p);
    }
  }

  lemma {:induction false} TrailSound(g: Graph, s: Dfs, trail: seq<nat>, h: seq<int>)
    requires Inv(g, s, trail) && Lineage(g, s.stack, trail, s.color) && trail != []
    requires |h| == |trail| && forall i :: 0 <= i < |h| ==> h[i] == s.stack[trail[i]]
    ensures Sound(g, h)
  {
    hide ColorOk, SiblingsOk, FinishedOk, SeenOk, FramesDistinct, StaleOk, Above;
    forall i | 0 <= i < |h| - 1
      ensures Edge(g, h[i], h[i + 1])
    {
      assert Edge(g, s.stack[trail[i]], s.stack[trail[i + 1]]);
    }
    forall i, x | 0 <= i < |h| && Edge(g, h[i], x)
      ensures x in g.nodes && x !in h[..i + 1]
    {
      assert Edge(g, s.stack[trail[i]], x);
    }
  }

  lemma {:induction false} WedgedIsTrap(g: Graph, s: Dfs, trail: seq<nat>)
    requires Inv(g, s, trail) && Lineage(g, s.stack, trail, s.color) && Wedged(g, s)
    ensures HasTrap(g)
  {
    hide SeenOk, PromiseOk, ReachPlus, NoBack, FramesDistinct, Sound, CleanFrom;
    var m, x, last := |s.stack| - 1, Top(s), |trail| - 1;
    assert trail != [];
    assert trail[last] != m;
    assert InFrame(s.stack, trail, last, m);
    var h := seq(|trail|, i requires 0 <= i < |trail| => s.stack[trail[i]]);
    TrailSound(g, s, trail, h);
    assert Elsewhere(g, s.stack, trail, s.color, last, x);
    var y :| Edge(g, s.stack[trail[last]], y) && ReachPlus(g, y, x) && y in s.color && s.color[y] == 2;
    FinishedClean(g, s, y);
    assert IsTrap(g, h, x, y);
  }

  lemma {:induction false} RunLineage(g: Graph, orders: seq<seq<int>>) returns (trail: seq<nat>)
    requires g.head in g.nodes && Legal(g, orders)
    ensures var s := At(g, orders); Inv(g, s, trail) && Lineage(g, s.stack, trail, s.color)
  {
    if orders == [] {
      StartInv(g);
      StartLineage(g);
      trail := [];
    } else {
      var before, order := orders[..|orders| - 1], orders[|orders| - 1];
      hide Inv, Lineage;
      trail := RunLineage(g, before);
      var s := At(g, before);
      if s.color[Top(s)] == 0 {
        VisitLineage(g, s, trail, order);
        trail := VisitInv(g, s, trail, order);
      } else if s.color[Top(s)] == 1 {
        FinishLineage(g, s, trail);
        trail := FinishInv(g, s, trail);
      }
    }
  }

  /** Without a trap no run gets stuck, so none is longer than two iterations per node. */
  lemma {:induction false} NoTrapTerminates(g: Graph, orders: seq<seq<int>>)
    requires g.head in g.nodes && !HasTrap(g) && Legal(g, orders)
    ensures !Wedged(g, At(g, orders)) && |orders| <= 2 * |g.nodes|
  {
    hide HasTrap, Work, Inv, Lineage;
    NoTrapWork(g, orders);
  }

  lemma {:induction false} NoTrapWork(g: Graph, orders: seq<seq<int>>)
    requires g.head in g.nodes && !HasTrap(g) && Legal(g, orders)
    ensures !Wedged(g, At(g, orders)) && Work(g, At(g, orders)) + |orders| == 2 * |g.nodes|
  {
    hide HasTrap, Work, Inv, Lineage;
    var trail := RunLineage(g, orders);
    if Wedged(g, At(g, orders)) {
      WedgedIsTrap(g, At(g, orders), trail);
    }
    if orders == [] {
      StartWork(g);
    } else {
      NoTrapWork(g, orders[..|orders| - 1]);
      StepShrinks(g, At(g, orders[..|orders| - 1]), orders[|orders| - 1]);
    }
  }
}
