/** The coloured depth-first traversal as a step machine: one step is one iteration of
    the loop, given the order in which the out-edges of the node on top are listed. */
module Traversal {
  import opened OrderingGraph
  import opened Sets

  /** Colours: 0 unvisited, 1 subtree in progress, 2 fully visited. */
  datatype Dfs = Dfs(
    stack: seq<int>,
    color: map<int, int>,
    reachable: map<int, set<int>>,
    parents: map<int, set<int>>,
    multi: bool,
    done: nat)

  ghost predicate Formed(g: Graph, s: Dfs) {
    && s.color.Keys == g.nodes.Keys && s.reachable.Keys == g.nodes.Keys && s.parents.Keys == g.nodes.Keys
    && (forall i :: 0 <= i < |s.stack| ==> s.stack[i] in g.nodes)
    && (forall u :: u in s.color ==> 0 <= s.color[u] <= 2)
  }

  function Start(g: Graph): Dfs {
    Dfs([g.head], map u | u in g.nodes :: 0, map u | u in g.nodes :: {}, map u | u in g.nodes :: {}, false, 0)
  }

  function Top(s: Dfs): int
    requires s.stack != []
  {
    s.stack[|s.stack| - 1]
  }

  /** An edge out of the node on top leads nowhere, or back into the current branch. */
  ghost predicate BadEdge(g: Graph, s: Dfs, x: int)
    requires s.stack != []
  {
    x !in g.nodes || x == Top(s) || (x in s.color && s.color[x] == 1)
  }

  /** The iteration returns "invalid". */
  ghost predicate Fatal(g: Graph, s: Dfs)
    requires Formed(g, s) && s.stack != []
  {
    s.color[Top(s)] == 0 && exists x :: x in g.nodes[Top(s)].next && BadEdge(g, s, x)
  }

  /** The loop body changes nothing and will be repeated forever. */
  ghost predicate Wedged(g: Graph, s: Dfs)
    requires Formed(g, s)
  {
    s.stack != [] && s.color[Top(s)] == 2
  }

  function Unvisited(color: map<int, int>, order: seq<int>): (r: seq<int>)
    ensures forall i :: 0 <= i < |r| ==> r[i] in color
  {
    if order == [] then []
    else
      var x := order[|order| - 1];
      Unvisited(color, order[..|order| - 1]) + if x in color && color[x] == 0 then [x] else []
  }

  function WithParent(parents: map<int, set<int>>, next: set<int>, u: int): map<int, set<int>> {
    map x | x in parents :: if x in next then parents[x] + {u} else parents[x]
  }

  /** Everything one edge away, and all that was found to be reachable from there. */
  ghost function Below(reachable: map<int, set<int>>, next: set<int>): set<int> {
    next + set x, v | x in next && x in reachable && v in reachable[x] :: v
  }

  ghost function Visit(g: Graph, s: Dfs, order: seq<int>): (s': Dfs)
    requires Formed(g, s) && s.stack != []
    ensures Formed(g, s')
  {
    var u := Top(s);
    var color := s.color[u := 1];
    s.(color := color,
       multi := s.multi || |g.nodes[u].next| > 1,
       parents := WithParent(s.parents, g.nodes[u].next, u),
       stack := s.stack + Unvisited(color, order))
  }

  ghost function Finish(g: Graph, s: Dfs): (s': Dfs)
    requires Formed(g, s) && s.stack != []
    ensures Formed(g, s')
  {
    var u := Top(s);
    s.(reachable := s.reachable[u := s.reachable[u] + Below(s.reachable, g.nodes[u].next)],
       color := s.color[u := 2],
       done := s.done + 1,
       stack := s.stack[..|s.stack| - 1])
  }

  ghost function Step(g: Graph, s: Dfs, order: seq<int>): (s': Dfs)
    requires Formed(g, s) && s.stack != []
    ensures Formed(g, s')
  {
    if s.color[Top(s)] == 0 then Visit(g, s, order)
    else if s.color[Top(s)] == 1 then Finish(g, s)
    else s
  }

  /** An iteration that returns nothing yet, listing out-edges in the given order. */
  ghost predicate CanStep(g: Graph, s: Dfs, order: seq<int>) {
    && Formed(g, s) && s.stack != [] && !Fatal(g, s)
    && (s.color[Top(s)] == 0 ==> IsOrder(order, g.nodes[Top(s)].next))
  }

  // ---------- runs ----------

  /** A run is given by the edge orders of its iterations, none of which returned. */
  ghost predicate Legal(g: Graph, orders: seq<seq<int>>)
    requires g.head in g.nodes
    decreases |orders|, 0
  {
    orders == [] || (Legal(g, orders[..|orders| - 1]) && CanStep(g, At(g, orders[..|orders| - 1]), orders[|orders| - 1]))
  }

  ghost function At(g: Graph, orders: seq<seq<int>>): (s: Dfs)
    requires g.head in g.nodes && Legal(g, orders)
    ensures Formed(g, s)
    decreases |orders|, 1
  {
    if orders == [] then Start(g) else Step(g, At(g, orders[..|orders| - 1]), orders[|orders| - 1])
  }

  lemma {:induction false} Extend(g: Graph, orders: seq<seq<int>>, order: seq<int>)
    requires g.head in g.nodes && Legal(g, orders) && CanStep(g, At(g, orders), order)
    ensures Legal(g, orders + [order]) && At(g, orders + [order]) == Step(g, At(g, orders), order)
  {
    assert (orders + [order])[..|orders|] == orders;
  }

  // ---------- the invariant ----------

  /** The nodes in progress, at stack positions `trail`, form one walk from the head. */
  ghost predicate TrailOk(g: Graph, stack: seq<int>, trail: seq<nat>) {
    && (forall i :: 0 <= i < |trail| ==> trail[i] < |stack|)
    && (forall i, j :: 0 <= i < j < |trail| ==> trail[i] < trail[j])
    && (forall i :: 0 <= i < |trail| - 1 ==> Edge(g, stack[trail[i]], stack[trail[i + 1]]))
    && (trail == [] ==> stack == [] || stack == [g.head])
    && (trail != [] ==> trail[0] == 0 && stack[0] == g.head)
  }

  /** Exactly the trail is coloured 1, and no copy of a node in progress lies above it. */
  ghost predicate ColorOk(stack: seq<int>, trail: seq<nat>, color: map<int, int>) {
    && (forall i :: 0 <= i < |trail| ==> trail[i] < |stack| && stack[trail[i]] in color && color[stack[trail[i]]] == 1)
    && (forall u :: u in color && color[u] == 1 ==> exists i :: 0 <= i < |trail| && stack[trail[i]] == u)
    && (forall i, q :: 0 <= i < |trail| && trail[i] < q < |stack| ==> stack[q] != stack[trail[i]])
  }

  /** The trail's innermost node at or below position `q` has an edge to the entry at `q`. */
  ghost predicate SiblingsOk(g: Graph, stack: seq<int>, trail: seq<nat>) {
    forall i, q :: 0 <= i < |trail| && InFrame(stack, trail, i, q) ==> Edge(g, stack[trail[i]], stack[q])
  }

  /** Position `q` was pushed when the `i`th node in progress was first visited. */
  ghost predicate InFrame(stack: seq<int>, trail: seq<nat>, i: nat, q: int)
    requires i < |trail|
  {
    trail[i] < q < |stack| && (i + 1 < |trail| ==> q < trail[i + 1])
  }

  ghost predicate Above(stack: seq<int>, p: nat, x: int) {
    exists q :: p < q < |stack| && stack[q] == x
  }

  /** Out-edges of a node in progress lead to finished nodes or to entries above it. */
  ghost predicate PromiseOk(g: Graph, stack: seq<int>, trail: seq<nat>, color: map<int, int>) {
    forall i, x :: 0 <= i < |trail| && trail[i] < |stack| && Edge(g, stack[trail[i]], x) ==>
      x in color && (color[x] == 2 || Above(stack, trail[i], x))
  }

  /** Finished nodes are closed under edges, off every cycle, and know what they reach. */
  ghost predicate FinishedOk(g: Graph, color: map<int, int>, reachable: map<int, set<int>>) {
    && (forall u, x :: u in color && color[u] == 2 && Edge(g, u, x) ==> x in color && color[x] == 2)
    && (forall u, v :: u in color && u in reachable && color[u] == 2 ==> (v in reachable[u] <==> ReachPlus(g, u, v)))
    && (forall u :: u in color && color[u] == 2 ==> !ReachPlus(g, u, u))
    && (forall u :: u in color && u in reachable && color[u] != 2 ==> reachable[u] == {})
  }

  /** What was visited or pushed is reachable from the head. */
  ghost predicate SeenReach(g: Graph, color: map<int, int>, stack: seq<int>) {
    && (forall u :: u in color && color[u] != 0 ==> Reach(g, g.head, u))
    && (forall i :: 0 <= i < |stack| ==> Reach(g, g.head, stack[i]))
  }

  ghost predicate ParentsOk(g: Graph, color: map<int, int>, parents: map<int, set<int>>) {
    forall x, u :: x in parents ==> (u in parents[x] <==> Edge(g, u, x) && u in color && color[u] != 0)
  }

  ghost predicate MultiOk(g: Graph, color: map<int, int>, multi: bool) {
    multi <==> exists u :: u in color && u in g.nodes && color[u] != 0 && |g.nodes[u].next| > 1
  }

  ghost function Finished(color: map<int, int>): set<int> {
    set u | u in color && color[u] == 2
  }

  ghost predicate SeenOk(g: Graph, s: Dfs)
    requires Formed(g, s) && g.head in g.nodes
  {
    && SeenReach(g, s.color, s.stack)
    && ParentsOk(g, s.color, s.parents)
    && MultiOk(g, s.color, s.multi)
    && s.done == |Finished(s.color)|
    && (s.stack == [] ==> s.color[g.head] == 2)
  }

  ghost predicate Inv(g: Graph, s: Dfs, trail: seq<nat>) {
    && g.head in g.nodes
    && Formed(g, s)
    && TrailOk(g, s.stack, trail)
    && ColorOk(s.stack, trail, s.color)
    && SiblingsOk(g, s.stack, trail)
    && PromiseOk(g, s.stack, trail, s.color)
    && FinishedOk(g, s.color, s.reachable)
    && SeenOk(g, s)
  }

  lemma {:induction false} StartInv(g: Graph)
    requires g.head in g.nodes
    ensures Inv(g, Start(g), [])
  {
    ReachSelf(g, g.head);
    assert Finished(Start(g).color) == {};
  }

  // ---------- finishing the node on top ----------

  /** A node in progress on top is the last of the trail, and all its edges are done. */
  lemma {:induction false} TopOfTrail(g: Graph, s: Dfs, trail: seq<nat>)
    requires Inv(g, s, trail) && s.stack != [] && s.color[Top(s)] == 1
    ensures trail != [] && trail[|trail| - 1] == |s.stack| - 1
    ensures forall x :: x in g.nodes[Top(s)].next ==> x in g.nodes && s.color[x] == 2
  {
    var m := |s.stack| - 1;
    var i :| 0 <= i < |trail| && s.stack[trail[i]] == Top(s);
    assert trail[i] == m;
    assert trail[i] <= trail[|trail| - 1];
    forall x | x in g.nodes[Top(s)].next
      ensures x in g.nodes && s.color[x] == 2
    {
      assert Edge(g, s.stack[trail[i]], x);
    }
  }

  lemma {:induction false} FinishReach(g: Graph, s: Dfs, u: int)
    requires Formed(g, s) && FinishedOk(g, s.color, s.reachable) && u in g.nodes && s.color[u] == 1
    requires forall x :: x in g.nodes[u].next ==> x in g.nodes && s.color[x] == 2
    ensures forall v :: v in Below(s.reachable, g.nodes[u].next) <==> ReachPlus(g, u, v)
    ensures !ReachPlus(g, u, u)
  {
    forall v
      ensures v in Below(s.reachable, g.nodes[u].next) <==> ReachPlus(g, u, v)
    {
      PlusUnfold(g, u, v);
    }
    if ReachPlus(g, u, u) {
      PlusUnfold(g, u, u);
      var x :| Edge(g, u, x) && (x == u || ReachPlus(g, x, u));
      var p :| Links(g, p, x, u, 1);
      var finished := set w | w in g.nodes && s.color[w] == 2;
      assert Closed(g, finished);
      ClosedKeeps(g, finished, p);
      assert false;
    }
  }

  lemma {:induction false} FinishFinished(g: Graph, s: Dfs, trail: seq<nat>)
    requires Inv(g, s, trail) && s.stack != [] && s.color[Top(s)] == 1
    ensures FinishedOk(g, Finish(g, s).color, Finish(g, s).reachable)
  {
    hide Reach, ReachPlus, Below, TrailOk, ColorOk, SiblingsOk, PromiseOk, SeenOk;
    TopOfTrail(g, s, trail);
    FinishReach(g, s, Top(s));
  }

  lemma {:induction false} PopTrail(g: Graph, stack: seq<int>, trail: seq<nat>)
    requires TrailOk(g, stack, trail) && trail != [] && trail[|trail| - 1] == |stack| - 1
    ensures TrailOk(g, stack[..|stack| - 1], trail[..|trail| - 1])
  {
    var rest, t := stack[..|stack| - 1], trail[..|trail| - 1];
    forall i | 0 <= i < |t|
      ensures t[i] < |rest| && rest[t[i]] == stack[trail[i]]
    {
      assert trail[i] < trail[|trail| - 1];
    }
    if t == [] {
      assert trail[0] == 0;
    }
  }

  lemma {:induction false} PopColor(g: Graph, stack: seq<int>, trail: seq<nat>, color: map<int, int>)
    requires TrailOk(g, stack, trail) && ColorOk(stack, trail, color)
    requires trail != [] && trail[|trail| - 1] == |stack| - 1
    ensures ColorOk(stack[..|stack| - 1], trail[..|trail| - 1], color[stack[|stack| - 1] := 2])
  {
    var rest, t, u := stack[..|stack| - 1], trail[..|trail| - 1], stack[|stack| - 1];
    var color' := color[u := 2];
    forall i | 0 <= i < |t|
      ensures t[i] < |rest| && rest[t[i]] == stack[trail[i]] != u
    {
      assert trail[i] < trail[|trail| - 1];
    }
    forall v | v in color' && color'[v] == 1
      ensures exists i :: 0 <= i < |t| && rest[t[i]] == v
    {
      var i :| 0 <= i < |trail| && stack[trail[i]] == v;
      assert rest[t[i]] == v;
    }
  }

  lemma {:induction false} PopSiblings(g: Graph, stack: seq<int>, trail: seq<nat>)
    requires TrailOk(g, stack, trail) && SiblingsOk(g, stack, trail)
    requires trail != [] && trail[|trail| - 1] == |stack| - 1
    ensures SiblingsOk(g, stack[..|stack| - 1], trail[..|trail| - 1])
  {
    var rest, t := stack[..|stack| - 1], trail[..|trail| - 1];
    forall i, q | 0 <= i < |t| && InFrame(rest, t, i, q)
      ensures Edge(g, rest[t[i]], rest[q])
    {
      assert InFrame(stack, trail, i, q);
    }
  }

  lemma {:induction false} PopPromise(g: Graph, stack: seq<int>, trail: seq<nat>, color: map<int, int>)
    requires TrailOk(g, stack, trail) && PromiseOk(g, stack, trail, color)
    requires trail != [] && trail[|trail| - 1] == |stack| - 1
    ensures PromiseOk(g, stack[..|stack| - 1], trail[..|trail| - 1], color[stack[|stack| - 1] := 2])
  {
    var rest, t, u := stack[..|stack| - 1], trail[..|trail| - 1], stack[|stack| - 1];
    var color' := color[u := 2];
    forall i, x | 0 <= i < |t| && t[i] < |rest| && Edge(g, rest[t[i]], x)
      ensures x in color' && (color'[x] == 2 || Above(rest, t[i], x))
    {
      assert Edge(g, stack[trail[i]], x);
      if color'[x] != 2 {
        var q :| trail[i] < q < |stack| && stack[q] == x;
        assert rest[q] == x;
      }
    }
  }

  lemma {:induction false} FinishColor(g: Graph, color: map<int, int>, parents: map<int, set<int>>, multi: bool, u: int)
    requires u in color && color[u] == 1 && ParentsOk(g, color, parents) && MultiOk(g, color, multi)
    ensures ParentsOk(g, color[u := 2], parents) && MultiOk(g, color[u := 2], multi)
    ensures |Finished(color[u := 2])| == |Finished(color)| + 1
  {
    assert Finished(color[u := 2]) == Finished(color) + {u};
    if multi {
      var v :| v in color && v in g.nodes && color[v] != 0 && |g.nodes[v].next| > 1;
      assert color[u := 2][v] != 0;
    }
  }

  lemma {:induction false} FinishSeen(g: Graph, s: Dfs, trail: seq<nat>)
    requires Inv(g, s, trail) && s.stack != [] && s.color[Top(s)] == 1
    ensures SeenOk(g, Finish(g, s))
  {
    hide Reach, ReachPlus, Below, FinishedOk, SiblingsOk, PromiseOk, ParentsOk, MultiOk, Finished, ColorOk;
    FinishColor(g, s.color, s.parents, s.multi, Top(s));
    assert s.stack[0] == g.head by {
      assert trail == [] || trail[0] == 0;
    }
  }

  lemma {:induction false} FinishInv(g: Graph, s: Dfs, trail: seq<nat>) returns (trail': seq<nat>)
    requires Inv(g, s, trail) && s.stack != [] && s.color[Top(s)] == 1
    ensures Inv(g, Finish(g, s), trail')
    ensures trail != [] && trail' == trail[..|trail| - 1]
  {
    hide TrailOk, ColorOk, SiblingsOk, PromiseOk, FinishedOk, SeenOk;
    TopOfTrail(g, s, trail);
    FinishFinished(g, s, trail);
    FinishSeen(g, s, trail);
    PopTrail(g, s.stack, trail);
    PopColor(g, s.stack, trail, s.color);
    PopSiblings(g, s.stack, trail);
    PopPromise(g, s.stack, trail, s.color);
    trail' := trail[..|trail| - 1];
  }

  // ---------- visiting the node on top ----------

  lemma {:induction false} UnvisitedExact(color: map<int, int>, order: seq<int>)
    ensures forall x :: x in Unvisited(color, order) <==> x in order && x in color && color[x] == 0
    ensures forall i :: 0 <= i < |Unvisited(color, order)| ==>
      Unvisited(color, order)[i] in order && Unvisited(color, order)[i] in color && color[Unvisited(color, order)[i]] == 0
  {
    if order != [] {
      UnvisitedExact(color, order[..|order| - 1]);
      assert order == order[..|order| - 1] + [order[|order| - 1]];
    }
  }

  /** The node on top has not been visited, and its edges can be followed. */
  ghost predicate Fresh(g: Graph, s: Dfs, order: seq<int>) {
    CanStep(g, s, order) && s.color[Top(s)] == 0
  }

  lemma {:induction false} FreshEdges(g: Graph, s: Dfs, order: seq<int>)
    requires Fresh(g, s, order)
    ensures var u := Top(s);
      forall x :: Edge(g, u, x) ==> x in order && x in g.nodes && x != u && s.color[x] != 1
    ensures forall x :: x in order ==> Edge(g, Top(s), x)
  {
    forall x | Edge(g, Top(s), x)
      ensures x in order && x in g.nodes && x != Top(s) && s.color[x] != 1
    {
      assert !BadEdge(g, s, x);
    }
  }

  lemma {:induction false} TrailBelow(s: Dfs, trail: seq<nat>)
    requires ColorOk(s.stack, trail, s.color) && s.stack != [] && Top(s) in s.color && s.color[Top(s)] == 0
    ensures forall i :: 0 <= i < |trail| ==> trail[i] < |s.stack| - 1
  {
  }

  lemma {:induction false} PushTrail(g: Graph, stack: seq<int>, trail: seq<nat>, more: seq<int>)
    requires TrailOk(g, stack, trail) && SiblingsOk(g, stack, trail) && stack != []
    requires forall i :: 0 <= i < |trail| ==> trail[i] < |stack| - 1
    ensures TrailOk(g, stack + more, trail + [|stack| - 1])
  {
    var stack', trail' := stack + more, trail + [|stack| - 1];
    assert forall i :: 0 <= i < |trail'| ==> stack'[trail'[i]] == stack[trail'[i]];
    forall i | 0 <= i < |trail'| - 1
      ensures Edge(g, stack'[trail'[i]], stack'[trail'[i + 1]])
    {
      if i == |trail| - 1 {
        assert InFrame(stack, trail, i, |stack| - 1);
      } else {
        assert Edge(g, stack[trail[i]], stack[trail[i + 1]]);
      }
    }
  }

  lemma {:induction false} PushColor(g: Graph, s: Dfs, trail: seq<nat>, more: seq<int>)
    requires Formed(g, s) && ColorOk(s.stack, trail, s.color)
    requires s.stack != [] && s.color[Top(s)] == 0
    requires forall i :: 0 <= i < |more| ==> more[i] in s.color && s.color[more[i]] == 0 && more[i] != Top(s)
    ensures ColorOk(s.stack + more, trail + [|s.stack| - 1], s.color[Top(s) := 1])
  {
    var m, u := |s.stack| - 1, Top(s);
    var stack', trail', color' := s.stack + more, trail + [m], s.color[u := 1];
    forall v | v in color' && color'[v] == 1
      ensures exists i :: 0 <= i < |trail'| && stack'[trail'[i]] == v
    {
      if v == u {
        assert stack'[trail'[|trail|]] == v;
      } else {
        var i :| 0 <= i < |trail| && s.stack[trail[i]] == v;
        assert stack'[trail'[i]] == v;
      }
    }
    forall i, q | 0 <= i < |trail'| && trail'[i] < q < |stack'|
      ensures stack'[q] != stack'[trail'[i]]
    {
      if q > m {
        assert stack'[q] == more[q - m - 1];
      }
    }
  }

  lemma {:induction false} PushSiblings(g: Graph, stack: seq<int>, trail: seq<nat>, more: seq<int>)
    requires SiblingsOk(g, stack, trail) && stack != []
    requires forall i :: 0 <= i < |trail| ==> trail[i] < |stack| - 1
    requires forall i :: 0 <= i < |more| ==> Edge(g, stack[|stack| - 1], more[i])
    ensures SiblingsOk(g, stack + more, trail + [|stack| - 1])
  {
    var stack', trail' := stack + more, trail + [|stack| - 1];
    forall i, q | 0 <= i < |trail'| && InFrame(stack', trail', i, q)
      ensures Edge(g, stack'[trail'[i]], stack'[q])
    {
      if i < |trail| {
        assert trail'[i + 1] <= |stack| - 1;
        assert InFrame(stack, trail, i, q);
      } else {
        assert stack'[q] == more[q - |stack|];
      }
    }
  }

  lemma {:induction false} PushPromise(g: Graph, s: Dfs, trail: seq<nat>, order: seq<int>)
    requires Fresh(g, s, order) && PromiseOk(g, s.stack, trail, s.color)
    requires forall i :: 0 <= i < |trail| ==> trail[i] < |s.stack| - 1
    ensures var s' := Visit(g, s, order); PromiseOk(g, s'.stack, trail + [|s.stack| - 1], s'.color)
  {
    var s', trail' := Visit(g, s, order), trail + [|s.stack| - 1];
    var more := Unvisited(s'.color, order);
    FreshEdges(g, s, order);
    UnvisitedExact(s'.color, order);
    forall i, x | 0 <= i < |trail'| && trail'[i] < |s'.stack| && Edge(g, s'.stack[trail'[i]], x)
      ensures x in s'.color && (s'.color[x] == 2 || Above(s'.stack, trail'[i], x))
    {
      if i < |trail| {
        assert Edge(g, s.stack[trail[i]], x);
        if s.color[x] != 2 {
          var q :| trail[i] < q < |s.stack| && s.stack[q] == x;
          assert s'.stack[q] == x;
        }
      } else if s'.color[x] != 2 {
        var j :| 0 <= j < |more| && more[j] == x;
        assert s'.stack[|s.stack| + j] == x;
      }
    }
  }

  /** What is pushed is reachable. */
  lemma {:induction false} PushedReach(g: Graph, s: Dfs, order: seq<int>)
    requires Fresh(g, s, order) && SeenReach(g, s.color, s.stack)
    ensures var color := s.color[Top(s) := 1]; SeenReach(g, color, s.stack + Unvisited(color, order))
  {
    hide Reach, ReachPlus, Unvisited, Fatal;
    var u, color := Top(s), s.color[Top(s) := 1];
    var more := Unvisited(color, order);
    FreshEdges(g, s, order);
    UnvisitedExact(color, order);
    assert Reach(g, g.head, u);
    forall i | 0 <= i < |s.stack + more|
      ensures Reach(g, g.head, (s.stack + more)[i])
    {
      if i < |s.stack| {
        assert (s.stack + more)[i] == s.stack[i];
      } else {
        var x := more[i - |s.stack|];
        assert (s.stack + more)[i] == x && x in order;
        ReachThenEdge(g, g.head, u, x);
      }
    }
  }

  lemma {:induction false} VisitColor(g: Graph, color: map<int, int>, parents: map<int, set<int>>, multi: bool, u: int)
    requires u in color && u in g.nodes && color[u] == 0 && ParentsOk(g, color, parents) && MultiOk(g, color, multi)
    ensures ParentsOk(g, color[u := 1], WithParent(parents, g.nodes[u].next, u))
    ensures MultiOk(g, color[u := 1], multi || |g.nodes[u].next| > 1)
    ensures Finished(color[u := 1]) == Finished(color)
  {
    var color' := color[u := 1];
    if multi {
      var v :| v in color && v in g.nodes && color[v] != 0 && |g.nodes[v].next| > 1;
      assert color'[v] != 0;
    } else if |g.nodes[u].next| > 1 {
      assert color'[u] != 0;
    }
  }

  lemma {:induction false} PushSeen(g: Graph, s: Dfs, order: seq<int>)
    requires g.head in g.nodes && Fresh(g, s, order) && SeenOk(g, s)
    ensures SeenOk(g, Visit(g, s, order))
  {
    hide ReachPlus, Reach, Fatal, Unvisited, IsOrder, ParentsOk, MultiOk, Finished, SeenReach;
    PushedReach(g, s, order);
    VisitColor(g, s.color, s.parents, s.multi, Top(s));
  }

  lemma {:induction false} VisitInv(g: Graph, s: Dfs, trail: seq<nat>, order: seq<int>) returns (trail': seq<nat>)
    requires Inv(g, s, trail) && Fresh(g, s, order)
    ensures Inv(g, Visit(g, s, order), trail') && trail' == trail + [|s.stack| - 1]
  {
    hide TrailOk, ColorOk, SiblingsOk, PromiseOk, SeenOk, ReachPlus, Reach, Fatal;
    var s', u := Visit(g, s, order), Top(s);
    var more := Unvisited(s'.color, order);
    trail' := trail + [|s.stack| - 1];
    FreshEdges(g, s, order);
    UnvisitedExact(s'.color, order);
    forall i | 0 <= i < |more|
      ensures more[i] in s.color && s.color[more[i]] == 0 && more[i] != u && Edge(g, u, more[i])
    {
      assert more[i] in order && s'.color[more[i]] == 0 && s'.color[u] == 1;
    }
    TrailBelow(s, trail);
    PushTrail(g, s.stack, trail, more);
    PushColor(g, s, trail, more);
    PushSiblings(g, s.stack, trail, more);
    PushPromise(g, s, trail, order);
    PushSeen(g, s, order);
  }

  lemma {:induction false} StepInv(g: Graph, s: Dfs, trail: seq<nat>, order: seq<int>) returns (trail': seq<nat>)
    requires Inv(g, s, trail) && CanStep(g, s, order)
    ensures Inv(g, Step(g, s, order), trail')
  {
    hide Inv;
    if s.color[Top(s)] == 0 {
      trail' := VisitInv(g, s, trail, order);
    } else if s.color[Top(s)] == 1 {
      trail' := FinishInv(g, s, trail);
    } else {
      trail' := trail;
    }
  }

  lemma {:induction false} RunInv(g: Graph, orders: seq<seq<int>>) returns (trail: seq<nat>)
    requires g.head in g.nodes && Legal(g, orders)
    ensures Inv(g, At(g, orders), trail)
  {
    if orders == [] {
      StartInv(g);
      trail := [];
    } else {
      hide Inv;
      trail := RunInv(g, orders[..|orders| - 1]);
      trail := StepInv(g, At(g, orders[..|orders| - 1]), trail, orders[|orders| - 1]);
    }
  }

  // ---------- what the two ways to return mean ----------

  /** A node of the trail reaches every later one. */
  lemma {:induction false} TrailReaches(g: Graph, stack: seq<int>, trail: seq<nat>, i: nat, j: nat)
    requires TrailOk(g, stack, trail) && i <= j < |trail|
    ensures Reach(g, stack[trail[i]], stack[trail[j]])
  {
    if i == j {
      ReachSelf(g, stack[trail[i]]);
    } else {
      TrailReaches(g, stack, trail, i, j - 1);
      assert Edge(g, stack[trail[j - 1]], stack[trail[j - 1 + 1]]);
      ReachThenEdge(g, stack[trail[i]], stack[trail[j - 1]], stack[trail[j]]);
    }
  }

  /** Returning early is right: the traversal met a dangling edge or a cycle. */
  lemma {:induction false} FatalIsBad(g: Graph, s: Dfs, trail: seq<nat>)
    requires Inv(g, s, trail) && s.stack != [] && Fatal(g, s)
    ensures Dangling(g) || Cyclic(g)
  {
    hide Reach, ReachPlus, SiblingsOk, PromiseOk, FinishedOk, ParentsOk, MultiOk, Finished, TrailOk;
    var u := Top(s);
    var x :| x in g.nodes[u].next && BadEdge(g, s, x);
    assert Edge(g, u, x);
    assert Reach(g, g.head, u);
    if x in g.nodes {
      if x == u {
        EdgeReaches(g, u, u);
      } else {
        assert Reach(g, g.head, x);
        BackEdge(g, s, trail, x);
        ReachThenEdge(g, x, u, x);
      }
    }
  }

  /** A node in progress reaches the node on top. */
  lemma {:induction false} BackEdge(g: Graph, s: Dfs, trail: seq<nat>, x: int)
    requires Inv(g, s, trail) && s.stack != [] && s.color[Top(s)] == 0 && x in g.nodes && s.color[x] == 1
    ensures Reach(g, x, Top(s))
  {
    hide Reach, ReachPlus, SeenOk, PromiseOk, FinishedOk;
    var i :| 0 <= i < |trail| && s.stack[trail[i]] == x;
    TrailBelow(s, trail);
    PushTrail(g, s.stack, trail, []);
    assert s.stack + [] == s.stack;
    TrailReaches(g, s.stack, trail + [|s.stack| - 1], i, |trail|);
  }

  /** An empty stack means everything reachable was finished, so no reachable edge
      dangles, no cycle is reachable, and the count tells whether a node was missed. */
  lemma {:induction false} EmptyIsExact(g: Graph, s: Dfs, trail: seq<nat>)
    requires Inv(g, s, trail) && s.stack == []
    ensures !Dangling(g) && !Cyclic(g)
    ensures s.done < |g.nodes| <==> Disconnected(g)
    ensures forall u, v :: u in g.nodes && Reach(g, g.head, u) ==> (v in s.reachable[u] <==> ReachPlus(g, u, v))
    ensures forall u :: u in g.nodes ==> (s.color[u] != 0 <==> Reach(g, g.head, u))
  {
    var finished := Finished(s.color);
    assert forall u :: u in g.nodes && s.color[u] != 2 ==> s.color[u] == 0;
    assert Closed(g, finished);
    forall u | Reach(g, g.head, u)
      ensures u in finished
    {
      var p :| Links(g, p, g.head, u, 0);
      ClosedKeeps(g, finished, p);
    }
    hide Reach, ReachPlus;
    assert forall u :: u in g.nodes ==> (u in finished <==> Reach(g, g.head, u));
    assert finished <= g.nodes.Keys;
    SubsetSize(finished, g.nodes.Keys);
    if finished != g.nodes.Keys {
      var w := Missed(finished, g.nodes.Keys);
      assert w in g.nodes && !Reach(g, g.head, w);
    }
  }
}
