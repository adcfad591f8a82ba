/** Ordering graphs over client operations, and what can be reached in them. */
module OrderingGraph {

  datatype OpType = OpRead | OpWrite | OpRaddw

  datatype Operation = Operation(typ: OpType, key: int, val: int, ret: int)

  /** An operation, the pool after it, and its outgoing edges. */
  datatype Node = Node(
    nId: int, cId: int, op: Operation, tsReq: int, tsResp: int,
    pool: map<int, int>, next: set<int>)

  datatype Graph = Graph(nodes: map<int, Node>, head: int)

  function ApplyOpToPool(op: Operation, pool: map<int, int>): map<int, int>
    requires op.key in pool
  {
    match op.typ
    case OpRead => pool
    case OpWrite => pool[op.key := op.val]
    case OpRaddw => pool[op.key := pool[op.key] + op.val]
  }

  // ---------- edges and paths ----------

  predicate Edge(g: Graph, u: int, v: int) {
    u in g.nodes && v in g.nodes[u].next
  }

  /** A walk along edges; a single vertex is one too. */
  predicate Path(g: Graph, p: seq<int>) {
    |p| > 0 && forall i :: 0 <= i < |p| - 1 ==> Edge(g, p[i], p[i + 1])
  }

  /** A walk from `u` to `v` of at least `edges` edges. */
  predicate Links(g: Graph, p: seq<int>, u: int, v: int, edges: nat) {
    Path(g, p) && p[0] == u && p[|p| - 1] == v && edges < |p|
  }

  ghost predicate Reach(g: Graph, u: int, v: int) {
    exists p :: Links(g, p, u, v, 0)
  }

  /** Reachable by a non-empty walk. */
  ghost predicate ReachPlus(g: Graph, u: int, v: int) {
    exists p :: Links(g, p, u, v, 1)
  }

  // ---------- what can be wrong with a graph ----------

  ghost predicate Dangling(g: Graph) {
    exists u, x :: Reach(g, g.head, u) && Edge(g, u, x) && x !in g.nodes
  }

  ghost predicate Cyclic(g: Graph) {
    exists u :: Reach(g, g.head, u) && ReachPlus(g, u, u)
  }

  ghost predicate Disconnected(g: Graph) {
    exists u :: u in g.nodes && !Reach(g, g.head, u)
  }

  /** The edge from `u` to `x` is bypassed by the longer walk `p`. */
  predicate Bypass(g: Graph, u: int, x: int, p: seq<int>) {
    Edge(g, u, x) && Links(g, p, u, x, 2)
  }

  ghost predicate HasBypass(g: Graph) {
    exists u, x, p :: Reach(g, g.head, u) && Bypass(g, u, x, p)
  }

  // ---------- walks ----------

  lemma {:induction false} ReachSelf(g: Graph, u: int)
    ensures Reach(g, u, u)
  {
    assert Links(g, [u], u, u, 0);
  }

  lemma {:induction false} SubPath(g: Graph, p: seq<int>, i: nat, j: nat)
    requires Path(g, p) && i < j <= |p|
    ensures Path(g, p[i..j])
  {
    forall k | 0 <= k < j - i - 1
      ensures Edge(g, p[i..j][k], p[i..j][k + 1])
    {
      assert Edge(g, p[i + k], p[i + k + 1]);
    }
  }

  lemma {:induction false} Joined(g: Graph, p: seq<int>, q: seq<int>, u: int, v: int, w: int, a: nat, b: nat)
    requires Links(g, p, u, v, a) && Links(g, q, v, w, b)
    ensures Links(g, p + q[1..], u, w, a + b)
  {
    var r := p + q[1..];
    forall i | 0 <= i < |r| - 1
      ensures Edge(g, r[i], r[i + 1])
    {
      if i < |p| - 1 {
        assert r[i] == p[i] && r[i + 1] == p[i + 1];
      } else {
        assert r[i] == q[i - |p| + 1] && r[i + 1] == q[i - |p| + 2];
      }
    }
  }

  lemma {:induction false} EdgeReaches(g: Graph, u: int, v: int)
    requires Edge(g, u, v)
    ensures ReachPlus(g, u, v) && Reach(g, u, v)
  {
    assert Links(g, [u, v], u, v, 1) && Links(g, [u, v], u, v, 0);
  }

  /** A walk followed by an edge. */
  lemma {:induction false} ReachThenEdge(g: Graph, u: int, v: int, w: int)
    requires Reach(g, u, v) && Edge(g, v, w)
    ensures ReachPlus(g, u, w) && Reach(g, u, w)
  {
    var p :| Links(g, p, u, v, 0);
    Joined(g, p, [v, w], u, v, w, 0, 1);
    assert Links(g, p + [v, w][1..], u, w, 0);
  }

  /** A non-empty walk starts with an edge. */
  lemma {:induction false} PlusUnfold(g: Graph, u: int, v: int)
    ensures ReachPlus(g, u, v) <==> exists x :: Edge(g, u, x) && (x == v || ReachPlus(g, x, v))
  {
    if ReachPlus(g, u, v) {
      var p :| Links(g, p, u, v, 1);
      var x := p[1];
      assert Edge(g, p[0], p[1]);
      if x != v {
        SubPath(g, p, 1, |p|);
        assert p[1..|p|] == p[1..];
        assert Links(g, p[1..], x, v, 1);
      }
    }
    if x :| Edge(g, u, x) && (x == v || ReachPlus(g, x, v)) {
      if x == v {
        EdgeReaches(g, u, v);
      } else {
        var q :| Links(g, q, x, v, 1);
        Joined(g, [u, x], q, u, x, v, 1, 1);
        assert Links(g, [u, x] + q[1..], u, v, 1);
      }
    }
  }

  ghost predicate Closed(g: Graph, S: set<int>) {
    forall u, v :: u in S && Edge(g, u, v) ==> v in S
  }

  /** A walk does not leave a closed set. */
  lemma {:induction false} ClosedKeeps(g: Graph, S: set<int>, p: seq<int>)
    requires Closed(g, S) && Path(g, p) && p[0] in S
    ensures p[|p| - 1] in S
  {
    if |p| > 1 {
      assert Edge(g, p[0], p[1]);
      SubPath(g, p, 1, |p|);
      assert p[1..|p|] == p[1..];
      ClosedKeeps(g, S, p[1..]);
    }
  }
}
