/** The check of pool transitions, and what its answer depends on. */
module PoolCheck {
  import opened OrderingGraph
  import opened Sets

  /** Keys of operations exist in the pools they are applied to. */
  ghost predicate PoolsCover(g: Graph) {
    forall u, x :: Edge(g, u, x) && x in g.nodes ==> g.nodes[x].op.key in g.nodes[u].pool
  }

  /** The pool at `x` is that of its parent `u` after `x`'s operation. */
  predicate Transition(g: Graph, u: int, x: int)
    requires u in g.nodes && x in g.nodes
  {
    g.nodes[x].op.key in g.nodes[u].pool && g.nodes[x].pool == ApplyOpToPool(g.nodes[x].op, g.nodes[u].pool)
  }

  /** Only the operation's key can differ: a read keeps it, a write sets it, and a
      read-add-write adds to it. */
  lemma {:induction false} TransitionExact(g: Graph, u: int, x: int)
    requires u in g.nodes && x in g.nodes
    ensures var op, before, after := g.nodes[x].op, g.nodes[u].pool, g.nodes[x].pool;
      Transition(g, u, x) <==>
        && op.key in before && before.Keys == after.Keys
        && (forall k :: k in before && k != op.key ==> after[k] == before[k])
        && (op.typ == OpRead ==> after[op.key] == before[op.key])
        && (op.typ == OpWrite ==> after[op.key] == op.val)
        && (op.typ == OpRaddw ==> after[op.key] == before[op.key] + op.val)
  {
    var op, before, after := g.nodes[x].op, g.nodes[u].pool, g.nodes[x].pool;
    if op.key in before {
      SamePool(after, ApplyOpToPool(op, before));
    }
  }

  lemma {:induction false} SamePool(a: map<int, int>, b: map<int, int>)
    ensures a == b <==> a.Keys == b.Keys && forall k :: k in b ==> a[k] == b[k]
  {
    if a.Keys == b.Keys && forall k :: k in b ==> a[k] == b[k] {
      assert forall k :: k in a <==> k in b;
      assert a == b;
    }
  }

  /** Some parent, if there is any, explains the pool at `x`. */
  ghost predicate Justified(g: Graph, x: int)
    requires x in g.nodes
  {
    (exists u :: Edge(g, u, x)) ==> exists u :: Edge(g, u, x) && Transition(g, u, x)
  }

  ghost predicate AllJustified(g: Graph) {
    forall x :: x in g.nodes ==> Justified(g, x)
  }

  ghost predicate ParentsExact(g: Graph, parents: map<int, set<int>>) {
    parents.Keys == g.nodes.Keys && forall x, u :: x in g.nodes ==> (u in parents[x] <==> Edge(g, u, x))
  }

  // ---------- one node ----------

  /** Whether a pool is explained; no answer if a pool without the key came first. */
  datatype Explained = Explains | Unexplained | NoKey

  ghost predicate AreParents(g: Graph, us: seq<int>, x: int) {
    x in g.nodes && forall i :: 0 <= i < |us| ==> Edge(g, us[i], x)
  }

  /** The first parent in visiting order that explains the pool or lacks the key decides. */
  ghost function ScanParents(g: Graph, us: seq<int>, x: int): (r: Explained)
    requires AreParents(g, us, x)
    ensures r == Explains ==> exists i :: 0 <= i < |us| && Transition(g, us[i], x)
    ensures r == Unexplained ==>
      forall i :: 0 <= i < |us| ==> g.nodes[x].op.key in g.nodes[us[i]].pool && !Transition(g, us[i], x)
    ensures r == NoKey ==> exists i :: 0 <= i < |us| && g.nodes[x].op.key !in g.nodes[us[i]].pool
  {
    if us == [] then Unexplained
    else if g.nodes[x].op.key !in g.nodes[us[0]].pool then NoKey
    else if Transition(g, us[0], x) then Explains
    else
      var r := ScanParents(g, us[1..], x);
      assert forall i :: 0 <= i < |us| - 1 ==> us[1..][i] == us[i + 1];
      assert forall i :: 0 < i < |us| ==> us[i] == us[1..][i - 1];
      r
  }

  method ParentExplains(g: Graph, us: seq<int>, x: int) returns (r: Explained)
    requires AreParents(g, us, x)
    ensures r == ScanParents(g, us, x)
  {
    for i := 0 to |us|
      invariant AreParents(g, us[i..], x) && ScanParents(g, us, x) == ScanParents(g, us[i..], x)
    {
      assert us[i..][1..] == us[i + 1..];
      assert Edge(g, us[i], x);
      if g.nodes[x].op.key !in g.nodes[us[i]].pool {
        return NoKey;
      }
      if g.nodes[x].pool == ApplyOpToPool(g.nodes[x].op, g.nodes[us[i]].pool) {
        return Explains;
      }
    }
    return Unexplained;
  }

  // ---------- all nodes ----------

  /** A node and its parents, in the order in which they are looked at. */
  datatype Look = Look(x: int, us: seq<int>)

  ghost predicate LookOk(g: Graph, parents: map<int, set<int>>, look: Look) {
    look.x in g.nodes && look.x in parents && IsOrder(look.us, parents[look.x])
  }

  ghost function LookedAt(walk: seq<Look>): seq<int> {
    seq(|walk|, i requires 0 <= i < |walk| => walk[i].x)
  }

  /** Every node is looked at once, with its parents in some order. */
  ghost predicate IsWalk(g: Graph, parents: map<int, set<int>>, walk: seq<Look>) {
    (forall i :: 0 <= i < |walk| ==> LookOk(g, parents, walk[i])) && IsOrder(LookedAt(walk), g.nodes.Keys)
  }

  ghost predicate Looks(g: Graph, walk: seq<Look>) {
    forall i :: 0 <= i < |walk| ==> AreParents(g, walk[i].us, walk[i].x)
  }

  /** The first node that is not explained decides. */
  ghost function ScanNodes(g: Graph, walk: seq<Look>): (r: Explained)
    requires Looks(g, walk)
    ensures r == Explains ==>
      forall i :: 0 <= i < |walk| ==> walk[i].us == [] || ScanParents(g, walk[i].us, walk[i].x) == Explains
    ensures r != Explains ==>
      exists i :: 0 <= i < |walk| && walk[i].us != [] && ScanParents(g, walk[i].us, walk[i].x) == r
  {
    if walk == [] then Explains
    else
      var first := if walk[0].us == [] then Explains else ScanParents(g, walk[0].us, walk[0].x);
      if first != Explains then first
      else
        var r := ScanNodes(g, walk[1..]);
        assert forall i :: 0 <= i < |walk| - 1 ==> walk[1..][i] == walk[i + 1];
        assert forall i :: 0 < i < |walk| ==> walk[i] == walk[1..][i - 1];
        r
  }

  lemma {:induction false} WalkLooks(g: Graph, parents: map<int, set<int>>, walk: seq<Look>)
    requires ParentsExact(g, parents) && forall i :: 0 <= i < |walk| ==> LookOk(g, parents, walk[i])
    ensures Looks(g, walk)
  {
    forall i | 0 <= i < |walk|
      ensures AreParents(g, walk[i].us, walk[i].x)
    {
      forall k | 0 <= k < |walk[i].us|
        ensures Edge(g, walk[i].us[k], walk[i].x)
      {
        assert walk[i].us[k] in parents[walk[i].x];
      }
    }
  }

  /** A full walk tells whether all pools are explained, unless a key was missing. */
  lemma {:induction false} WalkMeaning(g: Graph, parents: map<int, set<int>>, walk: seq<Look>)
    requires ParentsExact(g, parents) && IsWalk(g, parents, walk)
    ensures Looks(g, walk)
    ensures ScanNodes(g, walk) == Explains ==> AllJustified(g)
    ensures ScanNodes(g, walk) == Unexplained ==> !AllJustified(g)
    ensures ScanNodes(g, walk) == NoKey ==> !PoolsCover(g)
  {
    WalkLooks(g, parents, walk);
    hide ScanParents, ScanNodes;
    var r := ScanNodes(g, walk);
    if r == Explains {
      forall x | x in g.nodes
        ensures Justified(g, x)
      {
        assert x in LookedAt(walk);
        var i :| 0 <= i < |walk| && LookedAt(walk)[i] == x;
        LookJustifies(g, parents, walk[i]);
      }
    } else {
      var i :| 0 <= i < |walk| && walk[i].us != [] && ScanParents(g, walk[i].us, walk[i].x) == r;
      LookRefutes(g, parents, walk[i]);
    }
  }

  lemma {:induction false} NoneListed(s: set<int>)
    requires IsOrder([], s)
    ensures s == {}
  {
    if s != {} {
      var x := Pick(s);
    }
  }

  lemma {:induction false} LookJustifies(g: Graph, parents: map<int, set<int>>, look: Look)
    requires ParentsExact(g, parents) && LookOk(g, parents, look) && AreParents(g, look.us, look.x)
    requires look.us == [] || ScanParents(g, look.us, look.x) == Explains
    ensures Justified(g, look.x)
  {
    hide ScanParents;
    if look.us == [] {
      NoneListed(parents[look.x]);
    } else {
      var i :| 0 <= i < |look.us| && Transition(g, look.us[i], look.x);
      assert Edge(g, look.us[i], look.x);
    }
  }

  lemma {:induction false} LookRefutes(g: Graph, parents: map<int, set<int>>, look: Look)
    requires ParentsExact(g, parents) && LookOk(g, parents, look) && AreParents(g, look.us, look.x) && look.us != []
    ensures ScanParents(g, look.us, look.x) == Unexplained ==> !Justified(g, look.x)
    ensures ScanParents(g, look.us, look.x) == NoKey ==> !PoolsCover(g)
  {
    hide ScanParents;
    var r := ScanParents(g, look.us, look.x);
    if r == Unexplained {
      assert Edge(g, look.us[0], look.x);
      forall u | Edge(g, u, look.x)
        ensures !Transition(g, u, look.x)
      {
        assert u in parents[look.x];
        assert u in look.us;
      }
    } else if r == NoKey {
      var i :| 0 <= i < |look.us| && g.nodes[look.x].op.key !in g.nodes[look.us[i]].pool;
      assert Edge(g, look.us[i], look.x);
    }
  }

  // ---------- the loop ----------

  /** A node reachable from the head is the head or has a parent. */
  lemma {:induction false} HasParent(g: Graph, x: int) returns (u: int)
    requires Reach(g, g.head, x) && x != g.head
    ensures Edge(g, u, x)
  {
    var p :| Links(g, p, g.head, x, 0);
    u := p[|p| - 2];
    assert Edge(g, p[|p| - 2], p[|p| - 2 + 1]);
  }

  /** Pick the order in which nodes and their parents will be looked at. */
  method Arrange(g: Graph, parents: map<int, set<int>>) returns (walk: seq<Look>)
    requires ParentsExact(g, parents)
    ensures IsWalk(g, parents, walk)
  {
    hide IsOrder;
    var xs := Listing(parents.Keys);
    walk := [];
    assert forall i :: 0 <= i < |xs| ==> xs[i] in parents by { OrderIn(xs, parents.Keys); }
    for i := 0 to |xs|
      invariant LookedAt(walk) == xs[..i]
      invariant forall j :: 0 <= j < |walk| ==> LookOk(g, parents, walk[j])
    {
      var us := Listing(parents[xs[i]]);
      walk := walk + [Look(xs[i], us)];
      assert LookedAt(walk) == xs[..i] + [xs[i]];
    }
    assert xs[..|xs|] == xs;
  }

  lemma {:induction false} OrderIn(order: seq<int>, s: set<int>)
    requires IsOrder(order, s)
    ensures forall i :: 0 <= i < |order| ==> order[i] in s
  {
  }

  method PoolsValid(g: Graph, parents: map<int, set<int>>) returns (r: Explained, ghost walk: seq<Look>)
    requires ParentsExact(g, parents)
    requires forall x :: x in g.nodes ==> Reach(g, g.head, x)
    ensures IsWalk(g, parents, walk) && Looks(g, walk) && r == ScanNodes(g, walk)
    ensures r == Explains ==> AllJustified(g)
    ensures r == Unexplained ==> !AllJustified(g)
    ensures r == NoKey ==> !PoolsCover(g)
  {
    hide Reach, PoolsCover, AllJustified, ScanParents;
    var looks := Arrange(g, parents);
    walk := looks;
    WalkMeaning(g, parents, walk);
    for i := 0 to |looks|
      invariant Looks(g, looks[i..]) && ScanNodes(g, looks) == ScanNodes(g, looks[i..])
    {
      assert looks[i..][1..] == looks[i + 1..] && looks[i..][0] == looks[i];
      assert LookOk(g, parents, looks[i]);
      if looks[i].us == [] {
        NoParents(g, parents, looks[i]);
        assert looks[i].x == g.head;
      } else {
        r := ParentExplains(g, looks[i].us, looks[i].x);
        if r != Explains {
          return;
        }
      }
    }
    return Explains, looks;
  }

  /** Only the head has no parents. */
  lemma {:induction false} NoParents(g: Graph, parents: map<int, set<int>>, look: Look)
    requires ParentsExact(g, parents) && LookOk(g, parents, look) && look.us == [] && Reach(g, g.head, look.x)
    ensures look.x == g.head
  {
    NoneListed(parents[look.x]);
    if look.x != g.head {
      var u := HasParent(g, look.x);
    }
  }

  // ---------- when a key can be missing ----------

  lemma {:induction false} ArrangeRest(g: Graph, parents: map<int, set<int>>, xs: seq<int>) returns (walk: seq<Look>)
    requires ParentsExact(g, parents) && forall i :: 0 <= i < |xs| ==> xs[i] in g.nodes
    ensures LookedAt(walk) == xs && forall i :: 0 <= i < |walk| ==> LookOk(g, parents, walk[i])
  {
    hide IsOrder;
    if xs == [] {
      walk := [];
    } else {
      var us := SomeOrder(parents[xs[0]]);
      var rest := ArrangeRest(g, parents, xs[1..]);
      walk := [Look(xs[0], us)] + rest;
      assert LookedAt(walk) == [xs[0]] + LookedAt(rest);
    }
  }

  /** An edge without the key can be the very first one looked at. */
  lemma {:induction false} KeyMissedFirst(g: Graph, parents: map<int, set<int>>, u: int, x: int) returns (walk: seq<Look>)
    requires ParentsExact(g, parents) && x in g.nodes && Edge(g, u, x) && g.nodes[x].op.key !in g.nodes[u].pool
    ensures IsWalk(g, parents, walk) && Looks(g, walk) && ScanNodes(g, walk) == NoKey
  {
    hide IsOrder;
    var xs := OrderStartingWith(g.nodes.Keys, x);
    var us := OrderStartingWith(parents[x], u);
    OrderIn(xs, g.nodes.Keys);
    var rest := ArrangeRest(g, parents, xs[1..]);
    walk := [Look(x, us)] + rest;
    assert LookedAt(walk) == [x] + LookedAt(rest) == xs;
    assert forall i :: 0 < i < |walk| ==> walk[i] == rest[i - 1];
    WalkLooks(g, parents, walk);
    assert walk[0].us[0] == u;
  }

  /** The check can meet a missing key, in some order, if and only if an edge lacks one. */
  lemma {:induction false} MissingKeyExact(g: Graph, parents: map<int, set<int>>)
    requires ParentsExact(g, parents)
    ensures (exists walk :: IsWalk(g, parents, walk) && Looks(g, walk) && ScanNodes(g, walk) == NoKey) <==> !PoolsCover(g)
  {
    hide IsWalk, Looks, ScanNodes, ParentsExact;
    if walk :| IsWalk(g, parents, walk) && Looks(g, walk) && ScanNodes(g, walk) == NoKey {
      WalkMeaning(g, parents, walk);
    }
    if !PoolsCover(g) {
      var u, x :| Edge(g, u, x) && x in g.nodes && g.nodes[x].op.key !in g.nodes[u].pool;
      var walk := KeyMissedFirst(g, parents, u, x);
    }
  }
}
