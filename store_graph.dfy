/** The store layout: a weighted directed graph in which every logical
    connection is inserted in both directions, and the contract of the
    shortest-path queries the planners ask of it. */
module StoreGraph {
  import opened Wrappers

  type Node = string

  const Entrance: Node := "Entrance"
  const BillingCounter: Node := "Billing Counter"

  /** One `(u, v, w)` triple of the static edge list. */
  datatype Edge = Edge(u: Node, v: Node, w: real)

  /** The graph: its nodes and the weight of each directed edge. */
  datatype Graph = Graph(nodes: set<Node>, weight: map<(Node, Node), real>)

  /** Every edge's endpoints are nodes of the graph. */
  predicate WellFormed(g: Graph) {
    forall e | e in g.weight :: e.0 in g.nodes && e.1 in g.nodes
  }

  /** Every directed edge has a reverse edge of the same weight. */
  predicate Symmetric(g: Graph) {
    forall e | e in g.weight :: (e.1, e.0) in g.weight && g.weight[(e.1, e.0)] == g.weight[e]
  }

  /** Triple `e` connects `a` and `b`, in either orientation. */
  predicate Touches(e: Edge, a: Node, b: Node) {
    (e.u == a && e.v == b) || (e.u == b && e.v == a)
  }

  /** No triple among `edges[i+1..k]` connects the same two nodes as `edges[i]`. */
  predicate LastTouching(edges: seq<Edge>, i: nat, k: nat)
    requires i < k <= |edges|
  {
    forall j | i < j < k :: !Touches(edges[j], edges[i].u, edges[i].v)
  }

  function Endpoints(edges: seq<Edge>): set<Node> {
    (set i | 0 <= i < |edges| :: edges[i].u) + (set i | 0 <= i < |edges| :: edges[i].v)
  }

  /** The pairs of nodes that some triple among `edges[..k]` connects. */
  ghost predicate KeysOf(w: map<(Node, Node), real>, edges: seq<Edge>, k: nat)
    requires k <= |edges|
  {
    forall a, b :: (a, b) in w <==> exists i :: 0 <= i < k && Touches(edges[i], a, b)
  }

  /** Each triple among `edges[..k]` not overwritten later in that prefix holds its weight both ways. */
  ghost predicate LastWriteWins(w: map<(Node, Node), real>, edges: seq<Edge>, k: nat)
    requires k <= |edges|
  {
    forall i | 0 <= i < k && LastTouching(edges, i, k) ::
      && (edges[i].u, edges[i].v) in w && w[(edges[i].u, edges[i].v)] == edges[i].w
      && (edges[i].v, edges[i].u) in w && w[(edges[i].v, edges[i].u)] == edges[i].w
  }

  /** Inserting triple `e` in both directions. */
  function InsertBoth(w: map<(Node, Node), real>, e: Edge): map<(Node, Node), real> {
    w[(e.u, e.v) := e.w][(e.v, e.u) := e.w]
  }

  lemma InsertKeys(w: map<(Node, Node), real>, edges: seq<Edge>, k: nat)
    requires k < |edges| && KeysOf(w, edges, k)
    ensures KeysOf(InsertBoth(w, edges[k]), edges, k + 1)
  {
    var w' := InsertBoth(w, edges[k]);
    forall a, b ensures (a, b) in w' <==> exists i :: 0 <= i < k + 1 && Touches(edges[i], a, b) {
      if Touches(edges[k], a, b) {
        assert (a, b) in w';
      } else if (a, b) in w' {
        assert (a, b) in w;
      }
    }
  }

  lemma InsertLastWrite(w: map<(Node, Node), real>, edges: seq<Edge>, k: nat)
    requires k < |edges| && LastWriteWins(w, edges, k)
    ensures LastWriteWins(InsertBoth(w, edges[k]), edges, k + 1)
  {
    var w' := InsertBoth(w, edges[k]);
    forall i | 0 <= i < k + 1 && LastTouching(edges, i, k + 1)
      ensures && (edges[i].u, edges[i].v) in w' && w'[(edges[i].u, edges[i].v)] == edges[i].w
              && (edges[i].v, edges[i].u) in w' && w'[(edges[i].v, edges[i].u)] == edges[i].w
    {
      if i < k {
        assert LastTouching(edges, i, k);
        assert !Touches(edges[k], edges[i].u, edges[i].v);
      }
    }
  }

  lemma InsertSymmetric(g: Graph, e: Edge)
    requires Symmetric(g)
    ensures Symmetric(Graph(g.nodes + {e.u, e.v}, InsertBoth(g.weight, e)))
  {
  }

  lemma InsertWellFormed(g: Graph, e: Edge)
    requires WellFormed(g)
    ensures WellFormed(Graph(g.nodes + {e.u, e.v}, InsertBoth(g.weight, e)))
  {
  }

  lemma EndpointsStep(edges: seq<Edge>, k: nat)
    requires k < |edges|
    ensures Endpoints(edges[..k + 1]) == Endpoints(edges[..k]) + {edges[k].u, edges[k].v}
  {
    assert forall i | 0 <= i < k :: edges[..k + 1][i] == edges[..k][i];
    assert edges[..k + 1][k] == edges[k];
  }

  /** `G.add_nodes_from(nodes)` followed by, for each triple, `G.add_edge(u, v)`
      and `G.add_edge(v, u)` with weight `w`; a later triple on the same pair
      overwrites an earlier one. */
  method BuildGraph(nodes: seq<Node>, edges: seq<Edge>) returns (g: Graph)
    ensures g.nodes == (set n | n in nodes) + Endpoints(edges)
    ensures KeysOf(g.weight, edges, |edges|)
    ensures LastWriteWins(g.weight, edges, |edges|)
    ensures WellFormed(g) && Symmetric(g)
  {
    g := Graph(set n | n in nodes, map[]);
    for k := 0 to |edges|
      invariant g.nodes == (set n | n in nodes) + Endpoints(edges[..k])
      invariant KeysOf(g.weight, edges, k)
      invariant LastWriteWins(g.weight, edges, k)
      invariant WellFormed(g) && Symmetric(g)
    {
      var e := edges[k];
      EndpointsStep(edges, k);
      InsertKeys(g.weight, edges, k);
      InsertLastWrite(g.weight, edges, k);
      InsertSymmetric(g, e);
      InsertWellFormed(g, e);
      g := Graph(g.nodes + {e.u, e.v}, InsertBoth(g.weight, e));
    }
    assert edges[..|edges|] == edges;
  }

  /** A walk: a non-empty node sequence of the graph whose consecutive nodes are adjacent. */
  predicate IsWalk(g: Graph, p: seq<Node>) {
    && |p| >= 1
    && (forall i | 0 <= i < |p| :: p[i] in g.nodes)
    && (forall i | 0 <= i < |p| - 1 :: (p[i], p[i + 1]) in g.weight)
  }

  /** A walk that starts at `s` and ends at `t`. */
  predicate IsPathBetween(g: Graph, s: Node, t: Node, p: seq<Node>) {
    IsWalk(g, p) && p[0] == s && p[|p| - 1] == t
  }

  /** Summed edge weight of a walk. */
  function WalkWeight(g: Graph, p: seq<Node>): real
    requires IsWalk(g, p)
    decreases |p|
  {
    if |p| == 1 then 0.0 else WalkWeight(g, p[..|p| - 1]) + g.weight[(p[|p| - 2], p[|p| - 1])]
  }

  /** Python's `p[:-1]`. */
  function DropLast(p: seq<Node>): seq<Node> {
    if |p| == 0 then [] else p[..|p| - 1]
  }

  /** Joining two walks that meet at a node, keeping the meeting node once,
      gives a walk between their outer ends. */
  lemma JoinIsWalk(g: Graph, w1: seq<Node>, w2: seq<Node>)
    requires IsWalk(g, w1) && IsWalk(g, w2) && w1[|w1| - 1] == w2[0]
    ensures IsPathBetween(g, w1[0], w2[|w2| - 1], DropLast(w1) + w2)
  {
    var d := DropLast(w1);
    var j := d + w2;
    var m := |d|;
    assert forall i | 0 <= i < m :: j[i] == w1[i];
    assert forall i | m <= i < |j| :: j[i] == w2[i - m];
    forall i | 0 <= i < |j| - 1 ensures (j[i], j[i + 1]) in g.weight {
      if i == m - 1 {
        assert j[i] == w1[m - 1] && j[i + 1] == w2[0];
      }
    }
  }

  /** ... and the joined walk weighs the sum of the two. */
  lemma {:induction false} JoinWalks(g: Graph, w1: seq<Node>, w2: seq<Node>)
    requires IsWalk(g, w1) && IsWalk(g, w2) && w1[|w1| - 1] == w2[0]
    ensures IsPathBetween(g, w1[0], w2[|w2| - 1], DropLast(w1) + w2)
    ensures WalkWeight(g, DropLast(w1) + w2) == WalkWeight(g, w1) + WalkWeight(g, w2)
    decreases |w2|
  {
    JoinIsWalk(g, w1, w2);
    var j := DropLast(w1) + w2;
    if |w2| == 1 {
      assert j == w1;
    } else {
      var w2' := w2[..|w2| - 1];
      assert IsWalk(g, w2') by {
        assert forall i | 0 <= i < |w2'| :: w2'[i] == w2[i];
      }
      JoinWalks(g, w1, w2');
      assert j[..|j| - 1] == DropLast(w1) + w2';
      assert j[|j| - 2] == w2[|w2| - 2] && j[|j| - 1] == w2[|w2| - 1];
    }
  }

  /** What the planners ask of `nx.shortest_path_length` (`dist`) and
      `nx.shortest_path` (`sp`): both succeed for the same pairs, the path
      starts at the source, ends at the target, follows edges of `g`, and its
      summed weight is the returned length. `None` stands for NetworkXNoPath. */
  ghost predicate ConsistentOracle(g: Graph, dist: (Node, Node) -> Option<real>, sp: (Node, Node) -> Option<seq<Node>>) {
    forall s, t ::
      && (dist(s, t).Some? <==> sp(s, t).Some?)
      && (sp(s, t).Some? ==>
            IsPathBetween(g, s, t, sp(s, t).value) && WalkWeight(g, sp(s, t).value) == dist(s, t).value)
  }

  /** One query of a consistent oracle: a reachable pair has a path of the
      returned length. */
  lemma OracleLeg(g: Graph, dist: (Node, Node) -> Option<real>, sp: (Node, Node) -> Option<seq<Node>>, a: Node, b: Node)
    requires ConsistentOracle(g, dist, sp) && dist(a, b).Some?
    ensures sp(a, b).Some? && IsPathBetween(g, a, b, sp(a, b).value)
    ensures WalkWeight(g, sp(a, b).value) == dist(a, b).value
  {
  }
}
