/** finalmodified.py `calculate_optimal_path`: from Entrance, repeatedly move
    to the nearest reachable item still on the list, then append Billing
    Counter and expand the ordering into a path. */
module GreedyPlanner {
  import opened Wrappers
  import opened StoreGraph
  import opened Orderings
  import opened Routes
  import opened ExactPlanner

  /** Shortest-path lengths from `current` to each remaining item, in list order. */
  function DistancesFrom(dist: (Node, Node) -> Option<real>, current: Node, remaining: seq<Node>): seq<Option<real>> {
    seq(|remaining|, k requires 0 <= k < |remaining| => dist(current, remaining[k]))
  }

  /** The position of `min_edge` chosen by the inner loop of finalmodified.py:22-31. */
  function Nearest(dist: (Node, Node) -> Option<real>, current: Node, remaining: seq<Node>): Option<nat> {
    FirstMin(DistancesFrom(dist, current, remaining))
  }

  /** Nothing is chosen exactly when no remaining item is reachable; the chosen
      item is reachable, no farther than any reachable item, and no item tied
      with it comes earlier in the list. */
  lemma NearestIsNearest(dist: (Node, Node) -> Option<real>, current: Node, remaining: seq<Node>)
    ensures Nearest(dist, current, remaining).None? <==>
              forall j | 0 <= j < |remaining| :: dist(current, remaining[j]).None?
    ensures Nearest(dist, current, remaining).Some? ==>
      var x := remaining[Nearest(dist, current, remaining).value];
      && dist(current, x).Some?
      && (forall j | 0 <= j < |remaining| && dist(current, remaining[j]).Some? ::
            dist(current, x).value <= dist(current, remaining[j]).value)
      && (forall j | 0 <= j < |remaining| && dist(current, remaining[j]) == dist(current, x) ::
            x in remaining[..j + 1])
  {
    var ds := DistancesFrom(dist, current, remaining);
    assert forall j | 0 <= j < |remaining| :: ds[j] == dist(current, remaining[j]);
    assert Nearest(dist, current, remaining).None? <==> forall j | 0 <= j < |ds| :: ds[j].None? by {
      FirstMinIsFirstMinimum(ds);
    }
    if Nearest(dist, current, remaining).Some? {
      NearestMinimal(dist, current, remaining);
    }
  }

  /** The chosen item is reachable, no farther than any reachable item, and
      no item tied with it comes earlier in the list. */
  lemma NearestMinimal(dist: (Node, Node) -> Option<real>, current: Node, remaining: seq<Node>)
    requires Nearest(dist, current, remaining).Some?
    ensures var x := remaining[Nearest(dist, current, remaining).value];
      && dist(current, x).Some?
      && (forall j | 0 <= j < |remaining| && dist(current, remaining[j]).Some? ::
            dist(current, x).value <= dist(current, remaining[j]).value)
      && (forall j | 0 <= j < |remaining| && dist(current, remaining[j]) == dist(current, x) ::
            x in remaining[..j + 1])
  {
    var ds := DistancesFrom(dist, current, remaining);
    var k := Nearest(dist, current, remaining).value;
    assert ds[k] == dist(current, remaining[k]);
    assert forall j | 0 <= j < |remaining| && dist(current, remaining[j]).Some? ::
             dist(current, remaining[k]).value <= dist(current, remaining[j]).value by {
      FirstMinIsFirstMinimum(ds);
      assert forall j | 0 <= j < |remaining| :: ds[j] == dist(current, remaining[j]);
    }
    forall j | 0 <= j < |remaining| && dist(current, remaining[j]) == dist(current, remaining[k])
      ensures remaining[k] in remaining[..j + 1]
    {
      NearestTie(dist, current, remaining, j);
    }
  }

  /** An item as near as the chosen one does not come before it. */
  lemma NearestTie(dist: (Node, Node) -> Option<real>, current: Node, remaining: seq<Node>, j: nat)
    requires Nearest(dist, current, remaining).Some? && j < |remaining|
    requires dist(current, remaining[j]) == dist(current, remaining[Nearest(dist, current, remaining).value])
    ensures remaining[Nearest(dist, current, remaining).value] in remaining[..j + 1]
  {
    var ds := DistancesFrom(dist, current, remaining);
    var k := Nearest(dist, current, remaining).value;
    assert ds[j] == ds[k];
    assert k <= j by {
      FirstMinIsFirstMinimum(ds);
    }
    assert remaining[..j + 1][k] == remaining[k];
  }

  /** The inner loop of finalmodified.py:22-31. `None` for `min_weight`
      stands for `float('inf')`. */
  method FindNearest(dist: (Node, Node) -> Option<real>, current: Node, remaining: seq<Node>)
    returns (minEdge: Option<Node>, minWeight: Option<real>)
    ensures Nearest(dist, current, remaining).None? ==> minEdge.None? && minWeight.None?
    ensures Nearest(dist, current, remaining).Some? ==>
              var k := Nearest(dist, current, remaining).value;
              minEdge == Some(remaining[k]) && minWeight == dist(current, remaining[k])
  {
    ghost var ds := DistancesFrom(dist, current, remaining);
    minEdge, minWeight := None, None;
    for i := 0 to |remaining|
      invariant FirstMin(ds[..i]).None? ==> minEdge.None? && minWeight.None?
      invariant FirstMin(ds[..i]).Some? ==>
                  var k := FirstMin(ds[..i]).value;
                  k < |remaining| && minEdge == Some(remaining[k]) && minWeight == ds[k]
    {
      var nextNode := remaining[i];
      var edgeWeight := dist(current, nextNode);
      assert ds[..i + 1][..i] == ds[..i];
      if edgeWeight.Some? && (minWeight.None? || edgeWeight.value < minWeight.value) {
        minWeight := edgeWeight;
        minEdge := Some(nextNode);
      }
    }
    assert ds[..|remaining|] == ds;
  }

  /** Python's `list.remove(x)`: drop the first occurrence of `x`, keeping
      the other items in their order. */
  function RemoveFirst(s: seq<Node>, x: Node): (r: seq<Node>)
    requires x in s
    ensures |r| == |s| - 1 && multiset(r) == multiset(s) - multiset{x}
  {
    if s[0] == x then
      assert s == [s[0]] + s[1..];
      s[1..]
    else
      assert s == [s[0]] + s[1..];
      [s[0]] + RemoveFirst(s[1..], x)
  }

  /** Python's `list.index(x)`: the position of the first occurrence of `x`. */
  function IndexOf(s: seq<Node>, x: Node): (i: nat)
    requires x in s
    ensures i < |s| && s[i] == x && x !in s[..i]
  {
    if s[0] == x then 0
    else
      assert s == [s[0]] + s[1..];
      var j := IndexOf(s[1..], x);
      assert s[..j + 1] == [s[0]] + s[1..][..j];
      j + 1
  }

  /** `RemoveFirst` cuts out exactly the first `x`, keeping the other items in
      their order, so later ties are broken as in the source. */
  lemma {:induction false} RemoveFirstCutsFirst(s: seq<Node>, x: Node)
    requires x in s
    ensures RemoveFirst(s, x) == s[..IndexOf(s, x)] + s[IndexOf(s, x) + 1..]
  {
    if s[0] != x {
      var t := s[1..];
      RemoveFirstCutsFirst(t, x);
      assert s == [s[0]] + t;
      CutBehindHead(s[0], t, IndexOf(t, x), RemoveFirst(t, x));
    }
  }

  /** Cutting position `i` out of the tail is cutting `i + 1` out of the list. */
  lemma CutBehindHead(h: Node, t: seq<Node>, i: nat, rt: seq<Node>)
    requires i < |t| && rt == t[..i] + t[i + 1..]
    ensures [h] + rt == ([h] + t)[..i + 1] + ([h] + t)[i + 2..]
  {
    assert ([h] + t)[..i + 1] == [h] + t[..i];
    assert ([h] + t)[i + 2..] == t[i + 1..];
  }

  /** Prefix a successful result. */
  function Then(pre: seq<Node>, o: Option<seq<Node>>): Option<seq<Node>> {
    match o
    case None => None
    case Some(p) => Some(pre + p)
  }

  lemma ThenNil(o: Option<seq<Node>>)
    ensures Then([], o) == o
  {
    if o.Some? {
      assert [] + o.value == o.value;
    }
  }

  lemma ThenThen(a: seq<Node>, b: seq<Node>, o: Option<seq<Node>>)
    ensures Then(a, Then(b, o)) == Then(a + b, o)
  {
    if o.Some? {
      assert a + (b + o.value) == (a + b) + o.value;
    }
  }

  /** The items in the order the greedy loop visits them from `current`, or
      `None` when at some step no remaining item is reachable. */
  function GreedyOrder(dist: (Node, Node) -> Option<real>, current: Node, remaining: seq<Node>): Option<seq<Node>>
    decreases |remaining|
  {
    if remaining == [] then Some([])
    else
      match Nearest(dist, current, remaining)
      case None => None
      case Some(k) =>
        var next := remaining[k];
        Then([next], GreedyOrder(dist, next, RemoveFirst(remaining, next)))
  }

  /** The stop ordering `path` of finalmodified.py:16-41. */
  function GreedyStops(dist: (Node, Node) -> Option<real>, shopping: seq<Node>): Option<seq<Node>> {
    match GreedyOrder(dist, Entrance, shopping)
    case None => None
    case Some(p) => Some(Candidate(p))
  }

  /** What `calculate_optimal_path` returns, or the ValueError it raises. */
  function GreedyPlan(dist: (Node, Node) -> Option<real>, sp: (Node, Node) -> Option<seq<Node>>, shopping: seq<Node>): Result<seq<Node>, PlanError> {
    match GreedyStops(dist, shopping)
    case None => Failure(NoValidRoute)
    case Some(stops) => Success(Expand(sp, stops))
  }

  /** The while loop of finalmodified.py:16-41. `totalLength` is the sum of
      the chosen `min_weight`s: the cost of the ordering up to the last item. */
  method GreedyStopOrder(dist: (Node, Node) -> Option<real>, shopping: seq<Node>) returns (path: Option<seq<Node>>, totalLength: real)
    ensures path == GreedyStops(dist, shopping)
    ensures path.Some? ==> |path.value| >= 2 && RouteCost(dist, path.value[..|path.value| - 1]) == Some(totalLength)
  {
    var current := Entrance;
    var stops := [current];
    totalLength := 0.0;
    var remaining := shopping;
    ThenNil(GreedyOrder(dist, Entrance, shopping));
    assert stops[1..] == [];
    while remaining != []
      invariant |stops| >= 1 && stops[0] == Entrance && current == stops[|stops| - 1]
      invariant RouteCost(dist, stops) == Some(totalLength)
      invariant GreedyOrder(dist, Entrance, shopping) == Then(stops[1..], GreedyOrder(dist, current, remaining))
      decreases |remaining|
    {
      var minEdge, minWeight := FindNearest(dist, current, remaining);
      if minEdge.None? {
        return None, totalLength;
      }
      var next := minEdge.value;
      GreedyStep(dist, stops, remaining, next, minWeight.value);
      stops := stops + [next];
      totalLength := totalLength + minWeight.value;
      remaining := RemoveFirst(remaining, next);
      current := next;
    }
    GreedyFinish(dist, shopping, stops);
    path := Some(stops + [BillingCounter]);
  }

  /** Leaving the greedy loop with nothing left to visit: the visited stops,
      followed by the billing counter, are the greedy route. */
  lemma GreedyFinish(dist: (Node, Node) -> Option<real>, shopping: seq<Node>, stops: seq<Node>)
    requires |stops| >= 1 && stops[0] == Entrance
    requires GreedyOrder(dist, Entrance, shopping) == Then(stops[1..], GreedyOrder(dist, stops[|stops| - 1], []))
    ensures GreedyStops(dist, shopping) == Some(stops + [BillingCounter])
    ensures (stops + [BillingCounter])[..|stops|] == stops
  {
    assert GreedyOrder(dist, stops[|stops| - 1], []) == Some([]);
    assert stops[1..] + [] == stops[1..];
    assert [Entrance] + stops[1..] == stops;
  }

  /** One turn of the greedy loop: moving to the chosen item extends the
      visited prefix and adds that leg's length to the total. */
  lemma GreedyStep(dist: (Node, Node) -> Option<real>, stops: seq<Node>, remaining: seq<Node>, next: Node, w: real)
    requires |stops| >= 1 && remaining != []
    requires Nearest(dist, stops[|stops| - 1], remaining).Some?
    requires next == remaining[Nearest(dist, stops[|stops| - 1], remaining).value]
    requires w == dist(stops[|stops| - 1], next).value
    ensures Then(stops[1..], GreedyOrder(dist, stops[|stops| - 1], remaining)) ==
            Then((stops + [next])[1..], GreedyOrder(dist, next, RemoveFirst(remaining, next)))
    ensures RouteCost(dist, stops).Some? ==> RouteCost(dist, stops + [next]) == Some(RouteCost(dist, stops).value + w)
  {
    var current := stops[|stops| - 1];
    GreedyOrderUnfold(dist, current, remaining);
    ThenThen(stops[1..], [next], GreedyOrder(dist, next, RemoveFirst(remaining, next)));
    assert (stops + [next])[1..] == stops[1..] + [next];
    NearestReachable(dist, current, remaining);
    if RouteCost(dist, stops).Some? {
      RouteCostAppend(dist, stops, next);
    }
  }

  /** The item chosen as nearest is reachable. */
  lemma NearestReachable(dist: (Node, Node) -> Option<real>, current: Node, remaining: seq<Node>)
    requires Nearest(dist, current, remaining).Some?
    ensures Nearest(dist, current, remaining).value < |remaining|
    ensures dist(current, remaining[Nearest(dist, current, remaining).value]).Some?
  {
    var k := Nearest(dist, current, remaining).value;
    assert DistancesFrom(dist, current, remaining)[k] == dist(current, remaining[k]);
  }

  /** One unfolding of the greedy order when an item is chosen. */
  lemma GreedyOrderUnfold(dist: (Node, Node) -> Option<real>, current: Node, remaining: seq<Node>)
    requires remaining != [] && Nearest(dist, current, remaining).Some?
    ensures var next := remaining[Nearest(dist, current, remaining).value];
      GreedyOrder(dist, current, remaining) == Then([next], GreedyOrder(dist, next, RemoveFirst(remaining, next)))
  {
  }

  /** finalmodified.py:8-52 */
  method CalculateOptimalPath(dist: (Node, Node) -> Option<real>, sp: (Node, Node) -> Option<seq<Node>>, shopping: seq<Node>)
    returns (r: Result<seq<Node>, PlanError>)
    ensures r == GreedyPlan(dist, sp, shopping)
  {
    var path, _ := GreedyStopOrder(dist, shopping);
    if path.None? {
      return Failure(NoValidRoute);
    }
    var optimalPath := ExpandStops(sp, path.value);
    return Success(optimalPath);
  }

  /** The visiting order is a rearrangement of the remaining items: each step
      removes exactly one of them. */
  lemma {:induction false} GreedyOrderArrangement(dist: (Node, Node) -> Option<real>, current: Node, remaining: seq<Node>)
    requires GreedyOrder(dist, current, remaining).Some?
    ensures multiset(GreedyOrder(dist, current, remaining).value) == multiset(remaining)
    decreases |remaining|
  {
    if remaining != [] {
      var next := remaining[Nearest(dist, current, remaining).value];
      GreedyOrderArrangement(dist, next, RemoveFirst(remaining, next));
    }
  }

  /** Each leg of the visiting order, from `current` on, is reachable. */
  lemma {:induction false} GreedyOrderReachable(dist: (Node, Node) -> Option<real>, current: Node, remaining: seq<Node>)
    requires GreedyOrder(dist, current, remaining).Some?
    ensures AllLegsReachable(dist, [current] + GreedyOrder(dist, current, remaining).value)
    decreases |remaining|
  {
    if remaining != [] {
      var next := remaining[Nearest(dist, current, remaining).value];
      var tail := [next] + GreedyOrder(dist, next, RemoveFirst(remaining, next)).value;
      GreedyOrderReachable(dist, next, RemoveFirst(remaining, next));
      NearestReachable(dist, current, remaining);
      GreedyOrderUnfold(dist, current, remaining);
      assert GreedyOrder(dist, current, remaining).value == tail;
      var s := [current] + tail;
      forall i | 0 <= i < |s| - 1 ensures dist(s[i], s[i + 1]).Some? {
        if i > 0 {
          assert s[i] == tail[i - 1] && s[i + 1] == tail[i];
        }
      }
    }
  }

  /** The first item visited is the nearest reachable remaining item (the
      earliest in the list among ties), and the rest of the order continues
      from it with that one occurrence removed. */
  lemma GreedyFirstChoice(dist: (Node, Node) -> Option<real>, current: Node, remaining: seq<Node>)
    requires remaining != [] && GreedyOrder(dist, current, remaining).Some?
    ensures var p := GreedyOrder(dist, current, remaining).value;
      && |p| >= 1 && p[0] in remaining && dist(current, p[0]).Some?
      && (forall j | 0 <= j < |remaining| && dist(current, remaining[j]).Some? ::
            dist(current, p[0]).value <= dist(current, remaining[j]).value)
      && (forall j | 0 <= j < |remaining| && dist(current, remaining[j]) == dist(current, p[0]) ::
            p[0] in remaining[..j + 1])
      && GreedyOrder(dist, p[0], RemoveFirst(remaining, p[0])) == Some(p[1..])
  {
    NearestIsNearest(dist, current, remaining);
  }

  /** The ordering is Entrance, a rearrangement of the shopping list, Billing Counter. */
  lemma GreedyStopsShape(dist: (Node, Node) -> Option<real>, shopping: seq<Node>)
    requires GreedyStops(dist, shopping).Some?
    ensures var stops := GreedyStops(dist, shopping).value;
      && |stops| == |shopping| + 2
      && stops[0] == Entrance && stops[|stops| - 1] == BillingCounter
      && stops == Candidate(stops[1..|stops| - 1])
      && multiset(stops[1..|stops| - 1]) == multiset(shopping)
  {
    var p := GreedyOrder(dist, Entrance, shopping).value;
    GreedyOrderArrangement(dist, Entrance, shopping);
    assert |p| == |multiset(p)| == |shopping|;
    assert Candidate(p)[1..|Candidate(p)| - 1] == p;
  }

  /** When every pair among Entrance and the items is connected, the greedy
      loop never gets stuck. */
  lemma {:induction false} GreedyOrderDefined(dist: (Node, Node) -> Option<real>, current: Node, remaining: seq<Node>, pool: seq<Node>)
    requires Connected(dist, pool) && current in pool && forall x | x in remaining :: x in pool
    ensures GreedyOrder(dist, current, remaining).Some?
    decreases |remaining|
  {
    if remaining != [] {
      NearestIsNearest(dist, current, remaining);
      assert dist(current, remaining[0]).Some?;
      var next := remaining[Nearest(dist, current, remaining).value];
      var rest := RemoveFirst(remaining, next);
      forall x | x in rest ensures x in pool {
        assert x in multiset(rest);
      }
      GreedyOrderDefined(dist, next, rest, pool);
    }
  }

  lemma GreedySucceedsWhenConnected(dist: (Node, Node) -> Option<real>, shopping: seq<Node>)
    requires Connected(dist, [Entrance] + shopping)
    ensures GreedyStops(dist, shopping).Some?
  {
    GreedyOrderDefined(dist, Entrance, shopping, [Entrance] + shopping);
  }

  // ---------------------------------------------------------------------
  // The greedy loop never asks whether Billing Counter is reachable from the
  // last item, and the stitching skips a segment with no path. The corrected
  // planner below raises the same ValueError in that case.

  /** The greedy ordering, refused when its last leg has no path. */
  function CheckedGreedyStops(dist: (Node, Node) -> Option<real>, shopping: seq<Node>): Option<seq<Node>> {
    match GreedyStops(dist, shopping)
    case None => None
    case Some(stops) =>
      if |stops| >= 2 && dist(stops[|stops| - 2], BillingCounter).Some? then Some(stops) else None
  }

  function CheckedGreedyPlan(dist: (Node, Node) -> Option<real>, sp: (Node, Node) -> Option<seq<Node>>, shopping: seq<Node>): Result<seq<Node>, PlanError> {
    match CheckedGreedyStops(dist, shopping)
    case None => Failure(NoValidRoute)
    case Some(stops) => Success(Expand(sp, stops))
  }

  /** Every leg of a checked greedy ordering is reachable. */
  lemma CheckedGreedyReachable(dist: (Node, Node) -> Option<real>, shopping: seq<Node>)
    requires CheckedGreedyStops(dist, shopping).Some?
    ensures AllLegsReachable(dist, CheckedGreedyStops(dist, shopping).value)
    ensures RouteCost(dist, CheckedGreedyStops(dist, shopping).value).Some?
  {
    var p := GreedyOrder(dist, Entrance, shopping).value;
    var front := [Entrance] + p;
    var stops := front + [BillingCounter];
    assert GreedyStops(dist, shopping) == Some(stops);
    assert stops[|stops| - 2] == front[|front| - 1];
    assert CheckedGreedyStops(dist, shopping) == Some(stops);
    GreedyOrderReachable(dist, Entrance, shopping);
    LegsAppend(dist, front, BillingCounter);
    RouteCostDefinedIff(dist, stops);
  }

  /** The planner as corrected: a returned path is a walk of the graph from
      Entrance to Billing Counter that passes every shopping item, and its
      weight is the ordering's cost. */
  lemma CheckedGreedyPlanRoute(g: Graph, dist: (Node, Node) -> Option<real>, sp: (Node, Node) -> Option<seq<Node>>, shopping: seq<Node>)
    requires ConsistentOracle(g, dist, sp)
    requires CheckedGreedyPlan(dist, sp, shopping).Success?
    ensures var path := CheckedGreedyPlan(dist, sp, shopping).value;
      var stops := CheckedGreedyStops(dist, shopping).value;
      && IsPathBetween(g, Entrance, BillingCounter, path)
      && (forall x | x in shopping :: x in path)
      && RouteCost(dist, stops).Some? && WalkWeight(g, path) == RouteCost(dist, stops).value
  {
    var stops := CheckedGreedyStops(dist, shopping).value;
    CheckedGreedyReachable(dist, shopping);
    GreedyStopsShape(dist, shopping);
    ExpandIsRoute(g, dist, sp, stops);
    ExpandContainsStops(g, dist, sp, stops);
    var mid := stops[1..|stops| - 1];
    forall x | x in shopping ensures x in stops {
      assert x in multiset(mid);
      var i :| 0 <= i < |mid| && mid[i] == x;
      assert stops[i + 1] == x;
    }
  }

  /** The heuristic is never better than the exact search: whenever the
      checked greedy ordering exists, so does the exact one, at no greater cost. */
  lemma GreedyNeverBeatsExact(dist: (Node, Node) -> Option<real>, shopping: seq<Node>)
    requires CheckedGreedyStops(dist, shopping).Some?
    ensures ExactStops(dist, shopping).Some?
    ensures RouteCost(dist, CheckedGreedyStops(dist, shopping).value).Some?
    ensures RouteCost(dist, ExactStops(dist, shopping).value).Some?
    ensures RouteCost(dist, ExactStops(dist, shopping).value).value <= RouteCost(dist, CheckedGreedyStops(dist, shopping).value).value
  {
    var stops := CheckedGreedyStops(dist, shopping).value;
    CheckedGreedyReachable(dist, shopping);
    GreedyStopsShape(dist, shopping);
    ExactStopsNoneIff(dist, shopping);
    ExactStopsOptimal(dist, shopping);
  }

  /** When the last leg has a path the two planners agree. */
  lemma GreedyAgreesWhenCounterReachable(dist: (Node, Node) -> Option<real>, sp: (Node, Node) -> Option<seq<Node>>, shopping: seq<Node>)
    requires GreedyStops(dist, shopping).Some?
    requires var stops := GreedyStops(dist, shopping).value; dist(stops[|stops| - 2], BillingCounter).Some?
    ensures GreedyPlan(dist, sp, shopping) == CheckedGreedyPlan(dist, sp, shopping)
  {
  }

  /** On a store where Entrance, every item and Billing Counter are mutually
      reachable, the planner as written returns a walk from Entrance to
      Billing Counter through every item, weighing the greedy ordering's cost. */
  lemma GreedyConnectedRoute(g: Graph, dist: (Node, Node) -> Option<real>, sp: (Node, Node) -> Option<seq<Node>>, shopping: seq<Node>)
    requires ConsistentOracle(g, dist, sp)
    requires Connected(dist, [Entrance] + shopping + [BillingCounter])
    ensures GreedyStops(dist, shopping).Some? && GreedyPlan(dist, sp, shopping).Success?
    ensures var path := GreedyPlan(dist, sp, shopping).value;
      var stops := GreedyStops(dist, shopping).value;
      && IsPathBetween(g, Entrance, BillingCounter, path)
      && (forall x | x in shopping :: x in path)
      && RouteCost(dist, stops).Some? && WalkWeight(g, path) == RouteCost(dist, stops).value
  {
    GreedySucceedsWhenConnected(dist, shopping);
    GreedyStopsShape(dist, shopping);
    var stops := GreedyStops(dist, shopping).value;
    var last := stops[|stops| - 2];
    if |shopping| == 0 {
      assert last == Entrance;
    } else {
      assert last in multiset(stops[1..|stops| - 1]);
    }
    assert last in [Entrance] + shopping + [BillingCounter];
    GreedyAgreesWhenCounterReachable(dist, sp, shopping);
    CheckedGreedyPlanRoute(g, dist, sp, shopping);
  }

  /** As written, with an empty shopping list and Billing Counter unreachable
      from Entrance, the greedy planner returns the one-node path
      ["Billing Counter"], which does not start at Entrance and is not a
      route, where the exact planner and the corrected greedy planner raise
      ValueError. */
  lemma GreedySkipsUnreachableCounter()
    ensures var g := Graph({Entrance, BillingCounter}, map[]);
      var dist := (a: Node, b: Node) => if a == b && a in g.nodes then Some(0.0) else None;
      var sp := (a: Node, b: Node) => if a == b && a in g.nodes then Some([a]) else None;
      && ConsistentOracle(g, dist, sp)
      && GreedyPlan(dist, sp, []) == Success([BillingCounter])
      && ExactPlan(dist, sp, []) == Failure(NoValidRoute)
      && CheckedGreedyPlan(dist, sp, []) == Failure(NoValidRoute)
  {
    var g := Graph({Entrance, BillingCounter}, map[]);
    var dist := (a: Node, b: Node) => if a == b && a in g.nodes then Some(0.0) else None;
    var sp := (a: Node, b: Node) => if a == b && a in g.nodes then Some([a]) else None;
    forall s, t | sp(s, t).Some?
      ensures IsPathBetween(g, s, t, sp(s, t).value) && WalkWeight(g, sp(s, t).value) == dist(s, t).value
    {
      assert sp(s, t).value == [s];
    }
    assert Entrance != BillingCounter;
    assert dist(Entrance, BillingCounter).None? && sp(Entrance, BillingCounter).None?;
    assert Candidate([]) == [Entrance, BillingCounter];
    assert GreedyOrder(dist, Entrance, []) == Some([]);
    assert GreedyStops(dist, []) == Some([Entrance, BillingCounter]);
    assert [Entrance, BillingCounter][..1] == [Entrance];
    assert Segments(sp, [Entrance, BillingCounter]) == [];
    assert Expand(sp, [Entrance, BillingCounter]) == [BillingCounter];
    assert CheckedGreedyStops(dist, []) == None;
    ExactEmptyList(g, dist, sp);
  }
}
