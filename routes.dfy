/** What the planners share: the framing of a stop ordering between the two
    anchors, its cost as a sum of shortest-path lengths, the "first strict
    minimum" rule both searches follow, and the expansion of a stop
    ordering into a node-by-node path (akash.py:40-47, finalmodified.py:44-50). */
module Routes {
  import opened Wrappers
  import opened StoreGraph

  /** The `ValueError` both planners raise when no route survives. */
  datatype PlanError = NoValidRoute

  /** `["Entrance"] + list(perm) + ["Billing Counter"]` */
  function Candidate(perm: seq<Node>): seq<Node> {
    [Entrance] + perm + [BillingCounter]
  }

  /** Every consecutive pair of stops has a shortest-path length. */
  predicate AllLegsReachable(dist: (Node, Node) -> Option<real>, stops: seq<Node>) {
    forall i | 0 <= i < |stops| - 1 :: dist(stops[i], stops[i + 1]).Some?
  }

  /** A reachable leg keeps a reachable route reachable. */
  lemma LegsAppend(dist: (Node, Node) -> Option<real>, stops: seq<Node>, x: Node)
    requires |stops| >= 1 && AllLegsReachable(dist, stops) && dist(stops[|stops| - 1], x).Some?
    ensures AllLegsReachable(dist, stops + [x])
  {
    var s := stops + [x];
    forall i | 0 <= i < |s| - 1 ensures dist(s[i], s[i + 1]).Some? {
      if i < |stops| - 1 {
        assert s[i] == stops[i] && s[i + 1] == stops[i + 1];
      }
    }
  }

  /** Every ordered pair of the given nodes has a shortest-path length. */
  predicate Connected(dist: (Node, Node) -> Option<real>, nodes: seq<Node>) {
    forall a, b | a in nodes && b in nodes :: dist(a, b).Some?
  }

  /** Sum of the shortest-path lengths of consecutive stops, added left to
      right; `None` as soon as one pair has no path. */
  function RouteCost(dist: (Node, Node) -> Option<real>, stops: seq<Node>): Option<real>
    decreases |stops|
  {
    if |stops| < 2 then Some(0.0)
    else
      match RouteCost(dist, stops[..|stops| - 1])
      case None => None
      case Some(c) =>
        match dist(stops[|stops| - 2], stops[|stops| - 1])
        case None => None
        case Some(d) => Some(c + d)
  }

  /** A route has a cost exactly when each of its legs is reachable. */
  lemma {:induction false} RouteCostDefinedIff(dist: (Node, Node) -> Option<real>, stops: seq<Node>)
    ensures RouteCost(dist, stops).Some? <==> AllLegsReachable(dist, stops)
    decreases |stops|
  {
    if |stops| >= 2 {
      var pre := stops[..|stops| - 1];
      RouteCostDefinedIff(dist, pre);
      assert forall i | 0 <= i < |pre| :: pre[i] == stops[i];
    }
  }

  /** Appending a reachable stop adds that leg's length to the cost. */
  lemma {:induction false} RouteCostAppend(dist: (Node, Node) -> Option<real>, stops: seq<Node>, x: Node)
    requires |stops| >= 1 && RouteCost(dist, stops).Some? && dist(stops[|stops| - 1], x).Some?
    ensures RouteCost(dist, stops + [x]) == Some(RouteCost(dist, stops).value + dist(stops[|stops| - 1], x).value)
  {
    var s := stops + [x];
    assert s[..|s| - 1] == stops;
    assert s[|s| - 2] == stops[|stops| - 1] && s[|s| - 1] == x;
    assert RouteCost(dist, s) == Some(RouteCost(dist, stops).value + dist(stops[|stops| - 1], x).value);
  }

  /** The index the loop `if cost < best: best = cost` keeps when it starts
      from `float('inf')`: the first strict minimum among the costs that are
      defined, or `None` when none is. */
  function FirstMin(costs: seq<Option<real>>): (r: Option<nat>)
    ensures r.Some? ==> r.value < |costs| && costs[r.value].Some?
    decreases |costs|
  {
    if |costs| == 0 then None
    else
      var prev := FirstMin(costs[..|costs| - 1]);
      var last := costs[|costs| - 1];
      if last.Some? && (prev.None? || last.value < costs[prev.value].value) then Some(|costs| - 1)
      else prev
  }

  /** One more cost seen by the loop: it becomes the minimum exactly when it
      is defined and strictly below the minimum so far. */
  lemma FirstMinStep(costs: seq<Option<real>>, i: nat)
    requires i < |costs|
    ensures FirstMin(costs[..i + 1]) ==
              var prev := FirstMin(costs[..i]);
              if costs[i].Some? && (prev.None? || costs[i].value < costs[prev.value].value) then Some(i) else prev
  {
    assert costs[..i + 1][..i] == costs[..i];
    var prev := FirstMin(costs[..i]);
    if prev.Some? {
      assert costs[..i][prev.value] == costs[prev.value];
    }
  }

  /** FirstMin finds nothing exactly when no cost is defined; otherwise its
      cost is at most every defined cost and strictly below every defined
      cost that comes before it. */
  lemma {:induction false} FirstMinIsFirstMinimum(costs: seq<Option<real>>)
    ensures FirstMin(costs).None? <==> forall j | 0 <= j < |costs| :: costs[j].None?
    ensures FirstMin(costs).Some? ==>
      var k := FirstMin(costs).value;
      && (forall j | 0 <= j < |costs| && costs[j].Some? :: costs[k].value <= costs[j].value)
      && (forall j | 0 <= j < k && costs[j].Some? :: costs[k].value < costs[j].value)
    decreases |costs|
  {
    if |costs| > 0 {
      var pre := costs[..|costs| - 1];
      FirstMinIsFirstMinimum(pre);
      assert forall j | 0 <= j < |pre| :: pre[j] == costs[j];
    }
  }

  /** The part of `nx.shortest_path(a, b)[:-1]` a segment contributes; a
      segment with no path contributes nothing. */
  function Segment(sp: (Node, Node) -> Option<seq<Node>>, a: Node, b: Node): seq<Node> {
    match sp(a, b)
    case None => []
    case Some(p) => DropLast(p)
  }

  /** The segments of all consecutive pairs, concatenated in order. */
  function Segments(sp: (Node, Node) -> Option<seq<Node>>, stops: seq<Node>): seq<Node>
    decreases |stops|
  {
    if |stops| < 2 then []
    else Segments(sp, stops[..|stops| - 1]) + Segment(sp, stops[|stops| - 2], stops[|stops| - 1])
  }

  /** The full path: all segments, then the last stop. */
  function Expand(sp: (Node, Node) -> Option<seq<Node>>, stops: seq<Node>): seq<Node>
    requires |stops| >= 1
  {
    Segments(sp, stops) + [stops[|stops| - 1]]
  }

  /** The stitching loop of akash.py:40-47 and finalmodified.py:44-50. */
  method ExpandStops(sp: (Node, Node) -> Option<seq<Node>>, stops: seq<Node>) returns (optimalPath: seq<Node>)
    requires |stops| >= 1
    ensures optimalPath == Expand(sp, stops)
  {
    optimalPath := [];
    for i := 0 to |stops| - 1
      invariant optimalPath == Segments(sp, stops[..i + 1])
    {
      assert stops[..i + 2][..i + 1] == stops[..i + 1];
      match sp(stops[i], stops[i + 1])
      case None =>
      case Some(p) =>
        optimalPath := optimalPath + DropLast(p);
    }
    assert stops[..|stops|] == stops;
    optimalPath := optimalPath + [stops[|stops| - 1]];
  }

  /** The expanded path always ends at the last stop, whatever the oracle. */
  lemma ExpandEndsAtLastStop(sp: (Node, Node) -> Option<seq<Node>>, stops: seq<Node>)
    requires |stops| >= 1
    ensures |Expand(sp, stops)| >= 1 && Expand(sp, stops)[|Expand(sp, stops)| - 1] == stops[|stops| - 1]
  {
  }

  /** One more reachable leg replaces the previous last stop by the leg's path. */
  lemma ExpandStep(g: Graph, dist: (Node, Node) -> Option<real>, sp: (Node, Node) -> Option<seq<Node>>, stops: seq<Node>)
    requires ConsistentOracle(g, dist, sp)
    requires |stops| >= 2 && dist(stops[|stops| - 2], stops[|stops| - 1]).Some?
    ensures Expand(sp, stops) == DropLast(Expand(sp, stops[..|stops| - 1])) + sp(stops[|stops| - 2], stops[|stops| - 1]).value
  {
    var pre := stops[..|stops| - 1];
    OracleLeg(g, dist, sp, stops[|stops| - 2], stops[|stops| - 1]);
    var p := sp(stops[|stops| - 2], stops[|stops| - 1]).value;
    assert DropLast(Expand(sp, pre)) == Segments(sp, pre);
    assert DropLast(p) + [stops[|stops| - 1]] == p;
    SegmentsUnfold(sp, stops);
    assert (Segments(sp, pre) + DropLast(p)) + [stops[|stops| - 1]] == Segments(sp, pre) + (DropLast(p) + [stops[|stops| - 1]]);
  }

  /** When every leg is reachable the expansion is a walk of the graph from
      the first stop to the last, and its weight is the route's cost. */
  lemma {:induction false} ExpandIsRoute(g: Graph, dist: (Node, Node) -> Option<real>, sp: (Node, Node) -> Option<seq<Node>>, stops: seq<Node>)
    requires ConsistentOracle(g, dist, sp)
    requires |stops| >= 2 && AllLegsReachable(dist, stops)
    ensures IsPathBetween(g, stops[0], stops[|stops| - 1], Expand(sp, stops))
    ensures RouteCost(dist, stops).Some? && WalkWeight(g, Expand(sp, stops)) == RouteCost(dist, stops).value
    decreases |stops|
  {
    var n := |stops|;
    var pre := stops[..n - 1];
    assert dist(stops[n - 2], stops[n - 1]).Some?;
    OracleLeg(g, dist, sp, stops[n - 2], stops[n - 1]);
    ExpandStep(g, dist, sp, stops);
    if n > 2 {
      assert AllLegsReachable(dist, pre) by {
        assert forall i | 0 <= i < |pre| :: pre[i] == stops[i];
      }
      ExpandIsRoute(g, dist, sp, pre);
    } else {
      assert Expand(sp, pre) == [stops[0]];
      assert RouteCost(dist, pre) == Some(0.0);
    }
    ExpandRouteStep(g, dist, sp, stops);
  }

  /** The inductive step of ExpandIsRoute: a walk for the route without its
      last leg, extended by the path of that leg. */
  lemma ExpandRouteStep(g: Graph, dist: (Node, Node) -> Option<real>, sp: (Node, Node) -> Option<seq<Node>>, stops: seq<Node>)
    requires |stops| >= 2
    requires var a, b := stops[|stops| - 2], stops[|stops| - 1];
      && dist(a, b).Some? && sp(a, b).Some? && IsPathBetween(g, a, b, sp(a, b).value)
      && WalkWeight(g, sp(a, b).value) == dist(a, b).value
      && Expand(sp, stops) == DropLast(Expand(sp, stops[..|stops| - 1])) + sp(a, b).value
    requires var pre := stops[..|stops| - 1];
      && IsPathBetween(g, stops[0], stops[|stops| - 2], Expand(sp, pre))
      && RouteCost(dist, pre).Some? && WalkWeight(g, Expand(sp, pre)) == RouteCost(dist, pre).value
    ensures IsPathBetween(g, stops[0], stops[|stops| - 1], Expand(sp, stops))
    ensures RouteCost(dist, stops).Some? && WalkWeight(g, Expand(sp, stops)) == RouteCost(dist, stops).value
  {
    var n := |stops|;
    var pre := stops[..n - 1];
    var p := sp(stops[n - 2], stops[n - 1]).value;
    var d := dist(stops[n - 2], stops[n - 1]).value;
    assert IsPathBetween(g, stops[0], stops[n - 1], Expand(sp, stops)) && WalkWeight(g, Expand(sp, stops)) == WalkWeight(g, Expand(sp, pre)) + d by {
      JoinWalks(g, Expand(sp, pre), p);
    }
    RouteCostLast(dist, stops);
  }

  /** The cost of a route is the cost without its last leg plus that leg. */
  lemma RouteCostLast(dist: (Node, Node) -> Option<real>, stops: seq<Node>)
    requires |stops| >= 2 && RouteCost(dist, stops[..|stops| - 1]).Some?
    requires dist(stops[|stops| - 2], stops[|stops| - 1]).Some?
    ensures RouteCost(dist, stops) == Some(RouteCost(dist, stops[..|stops| - 1]).value + dist(stops[|stops| - 2], stops[|stops| - 1]).value)
  {
  }

  lemma {:induction false} SegmentsSplit(sp: (Node, Node) -> Option<seq<Node>>, stops: seq<Node>, i: nat)
    requires i < |stops|
    ensures Segments(sp, stops) == Segments(sp, stops[..i + 1]) + Segments(sp, stops[i..])
    decreases |stops|
  {
    if i == |stops| - 1 {
      assert stops[..i + 1] == stops;
      assert Segments(sp, stops[i..]) == [];
    } else {
      var pre := stops[..|stops| - 1];
      SegmentsSplit(sp, pre, i);
      SliceFacts(stops, i);
      SegmentsSplitStep(sp, stops, stops[i..], pre[i..], Segments(sp, stops[..i + 1]));
    }
  }

  /** The inductive step of SegmentsSplit: if the route without its last leg
      is `front` followed by the segments of `preTail`, then the whole route
      is `front` followed by the segments of `tail`, which is `preTail` with
      the same last leg. */
  lemma SegmentsSplitStep(sp: (Node, Node) -> Option<seq<Node>>, stops: seq<Node>, tail: seq<Node>, preTail: seq<Node>, front: seq<Node>)
    requires |stops| >= 2 && |tail| >= 2
    requires tail[..|tail| - 1] == preTail
    requires tail[|tail| - 2] == stops[|stops| - 2] && tail[|tail| - 1] == stops[|stops| - 1]
    requires Segments(sp, stops[..|stops| - 1]) == front + Segments(sp, preTail)
    ensures Segments(sp, stops) == front + Segments(sp, tail)
  {
    var last := Segment(sp, stops[|stops| - 2], stops[|stops| - 1]);
    var middle := Segments(sp, preTail);
    SegmentsUnfold(sp, stops);
    SegmentsUnfold(sp, tail);
    assert Segment(sp, tail[|tail| - 2], tail[|tail| - 1]) == last;
    assert Segments(sp, tail) == middle + last;
    assert Segments(sp, stops) == (front + middle) + last;
    ConcatAssoc(front, middle, last);
  }

  /** Regrouping a concatenation. Stated apart for SegmentsSplitStep, whose
      proof runs out of resource when the same equation is asserted inline. */
  lemma ConcatAssoc(a: seq<Node>, b: seq<Node>, c: seq<Node>)
    ensures (a + b) + c == a + (b + c)
  {
  }

  /** How the slices in the inductive step of SegmentsSplit relate: the
      facts SegmentsSplitStep needs about `stops[i..]` and the route without
      its last leg. Kept apart so that SegmentsSplit stays within its budget. */
  lemma SliceFacts(stops: seq<Node>, i: nat)
    requires i < |stops| - 1
    ensures stops[..|stops| - 1][..i + 1] == stops[..i + 1]
    ensures stops[i..][..|stops[i..]| - 1] == stops[..|stops| - 1][i..]
    ensures |stops[i..]| >= 2
    ensures stops[i..][|stops[i..]| - 2] == stops[|stops| - 2] && stops[i..][|stops[i..]| - 1] == stops[|stops| - 1]
  {
  }

  /** The last segment of a route with at least one leg. */
  lemma SegmentsUnfold(sp: (Node, Node) -> Option<seq<Node>>, stops: seq<Node>)
    requires |stops| >= 2
    ensures Segments(sp, stops) == Segments(sp, stops[..|stops| - 1]) + Segment(sp, stops[|stops| - 2], stops[|stops| - 1])
  {
  }

  lemma ExpandSplit(sp: (Node, Node) -> Option<seq<Node>>, stops: seq<Node>, i: nat)
    requires i < |stops|
    ensures Expand(sp, stops) == Segments(sp, stops[..i + 1]) + Expand(sp, stops[i..])
  {
    var tail := stops[i..];
    SegmentsSplit(sp, stops, i);
    assert tail[|tail| - 1] == stops[|stops| - 1];
    calc {
      Expand(sp, stops);
      Segments(sp, stops) + [stops[|stops| - 1]];
      (Segments(sp, stops[..i + 1]) + Segments(sp, tail)) + [tail[|tail| - 1]];
      Segments(sp, stops[..i + 1]) + (Segments(sp, tail) + [tail[|tail| - 1]]);
      Segments(sp, stops[..i + 1]) + Expand(sp, tail);
    }
  }

  /** Where stop `i` lands in the expanded path. */
  function StopPosition(sp: (Node, Node) -> Option<seq<Node>>, stops: seq<Node>, i: nat): nat
    requires i < |stops|
  {
    |Segments(sp, stops[..i + 1])|
  }

  /** When every leg is reachable, stop `i` sits at its position in the expanded path. */
  lemma StopAtPosition(g: Graph, dist: (Node, Node) -> Option<real>, sp: (Node, Node) -> Option<seq<Node>>, stops: seq<Node>, i: nat)
    requires ConsistentOracle(g, dist, sp)
    requires i < |stops| && AllLegsReachable(dist, stops)
    ensures StopPosition(sp, stops, i) < |Expand(sp, stops)| && Expand(sp, stops)[StopPosition(sp, stops, i)] == stops[i]
  {
    var tail := stops[i..];
    var front := Segments(sp, stops[..i + 1]);
    ExpandSplit(sp, stops, i);
    assert Expand(sp, tail)[0] == stops[i] by {
      if |tail| >= 2 {
        assert AllLegsReachable(dist, tail) by {
          assert forall k | 0 <= k < |tail| :: tail[k] == stops[i + k];
        }
        ExpandIsRoute(g, dist, sp, tail);
      }
    }
    assert (front + Expand(sp, tail))[|front|] == Expand(sp, tail)[0];
  }

  /** Later stops never land before earlier ones. */
  lemma StopPositionMonotone(sp: (Node, Node) -> Option<seq<Node>>, stops: seq<Node>, i: nat, j: nat)
    requires i <= j < |stops|
    ensures StopPosition(sp, stops, i) <= StopPosition(sp, stops, j)
  {
    SegmentsSplit(sp, stops[..j + 1], i);
    assert stops[..j + 1][..i + 1] == stops[..i + 1];
  }

  /** When every leg is reachable, each stop occurs in the expanded path, at
      positions that never go backwards: the path visits the stops in order. */
  lemma ExpandVisitsStops(g: Graph, dist: (Node, Node) -> Option<real>, sp: (Node, Node) -> Option<seq<Node>>, stops: seq<Node>)
    requires ConsistentOracle(g, dist, sp)
    requires |stops| >= 1 && AllLegsReachable(dist, stops)
    ensures forall i | 0 <= i < |stops| ::
              StopPosition(sp, stops, i) < |Expand(sp, stops)| && Expand(sp, stops)[StopPosition(sp, stops, i)] == stops[i]
    ensures forall i, j | 0 <= i <= j < |stops| :: StopPosition(sp, stops, i) <= StopPosition(sp, stops, j)
  {
    forall i | 0 <= i < |stops|
      ensures StopPosition(sp, stops, i) < |Expand(sp, stops)| && Expand(sp, stops)[StopPosition(sp, stops, i)] == stops[i]
    {
      StopAtPosition(g, dist, sp, stops, i);
    }
    forall i, j | 0 <= i <= j < |stops| ensures StopPosition(sp, stops, i) <= StopPosition(sp, stops, j) {
      StopPositionMonotone(sp, stops, i, j);
    }
  }

  /** When every leg is reachable, every stop occurs in the expanded path. */
  lemma ExpandContainsStops(g: Graph, dist: (Node, Node) -> Option<real>, sp: (Node, Node) -> Option<seq<Node>>, stops: seq<Node>)
    requires ConsistentOracle(g, dist, sp)
    requires |stops| >= 1 && AllLegsReachable(dist, stops)
    ensures forall x | x in stops :: x in Expand(sp, stops)
  {
    forall x | x in stops ensures x in Expand(sp, stops) {
      var i :| 0 <= i < |stops| && stops[i] == x;
      StopAtPosition(g, dist, sp, stops, i);
    }
  }
}
