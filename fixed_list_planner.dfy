/** finalcode.py: the same exhaustive search as akash.py, run once at module
    level on a fixed five-item list, but with no `try`: a leg with no path
    raises NetworkXNoPath and ends the script. The stitched path is then
    turned into the list of edges to highlight. */
module FixedListPlanner {
  import opened Wrappers
  import opened StoreGraph
  import opened Orderings
  import opened Routes
  import opened ExactPlanner

  /** finalcode.py:105 */
  const ShoppingList: seq<Node> := ["Bread", "Vegetables", "Cheese", "Snacks", "Frozen"]

  /** The uncaught NetworkXNoPath that ends the script. */
  datatype ScriptError = NoPathRaised

  /** Every candidate ordering has a path for each of its legs. */
  predicate AllCandidatesReachable(dist: (Node, Node) -> Option<real>, shopping: seq<Node>) {
    var perms := Permutations(shopping);
    forall k | 0 <= k < |perms| :: RouteCost(dist, Candidate(perms[k])).Some?
  }

  /** The outcome of the search of finalcode.py:113-129: the exact planner's
      choice when no leg query raises, otherwise the exception. */
  function FixedSearch(dist: (Node, Node) -> Option<real>, shopping: seq<Node>): (r: Result<seq<Node>, ScriptError>)
    ensures r.Success? ==> |r.value| >= 2 && r.value[0] == Entrance && r.value[|r.value| - 1] == BillingCounter
  {
    if AllCandidatesReachable(dist, shopping) && ExactStops(dist, shopping).Some? then
      Success(ExactStops(dist, shopping).value)
    else
      Failure(NoPathRaised)
  }

  /** The search loop of finalcode.py:113-129. */
  method SearchAll(dist: (Node, Node) -> Option<real>, shopping: seq<Node>) returns (r: Result<seq<Node>, ScriptError>)
    ensures r == FixedSearch(dist, shopping)
  {
    var perms := Permutations(shopping);
    ghost var costs := CandidateCosts(dist, perms);
    var minPath: Option<seq<Node>> := None;
    var minPathLength: Option<real> := None;
    for i := 0 to |perms|
      invariant AllDefined(costs[..i])
      invariant FirstMin(costs[..i]).None? ==> minPath.None? && minPathLength.None?
      invariant FirstMin(costs[..i]).Some? ==>
                  var k := FirstMin(costs[..i]).value;
                  k < |perms| && minPath == Some(Candidate(perms[k])) && minPathLength == costs[k]
    {
      var fullPath := Candidate(perms[i]);
      var pathLength := PathLength(dist, fullPath);
      if pathLength.None? {
        SearchAborts(dist, shopping, i);
        return Failure(NoPathRaised);
      }
      assert costs[i] == pathLength;
      assert costs[..i + 1][..i] == costs[..i];
      FirstMinStep(costs, i);
      if minPathLength.None? || pathLength.value < minPathLength.value {
        minPathLength := pathLength;
        minPath := Some(fullPath);
      }
    }
    assert costs[..|perms|] == costs;
    AllDefinedIndex(costs);
    SearchCompletes(dist, shopping);
    return Success(minPath.value);
  }

  /** Every cost in the sequence is defined, stated from the back as the
      search loop meets them. */
  predicate AllDefined(costs: seq<Option<real>>)
    decreases |costs|
  {
    |costs| == 0 || (AllDefined(costs[..|costs| - 1]) && costs[|costs| - 1].Some?)
  }

  lemma {:induction false} AllDefinedIndex(costs: seq<Option<real>>)
    requires AllDefined(costs)
    ensures forall j | 0 <= j < |costs| :: costs[j].Some?
    decreases |costs|
  {
    if |costs| > 0 {
      var pre := costs[..|costs| - 1];
      AllDefinedIndex(pre);
      assert forall j | 0 <= j < |pre| :: pre[j] == costs[j];
    }
  }

  /** A candidate with an unreachable leg makes the search raise. */
  lemma SearchAborts(dist: (Node, Node) -> Option<real>, shopping: seq<Node>, i: nat)
    requires i < |Permutations(shopping)| && RouteCost(dist, Candidate(Permutations(shopping)[i])).None?
    ensures FixedSearch(dist, shopping) == Failure(NoPathRaised)
  {
  }

  /** When no candidate raises, the search returns the first cheapest one. */
  lemma SearchCompletes(dist: (Node, Node) -> Option<real>, shopping: seq<Node>)
    requires var costs := CandidateCosts(dist, Permutations(shopping));
      forall j | 0 <= j < |costs| :: costs[j].Some?
    ensures var perms := Permutations(shopping);
      var costs := CandidateCosts(dist, perms);
      && FirstMin(costs).Some?
      && FixedSearch(dist, shopping) == Success(Candidate(perms[FirstMin(costs).value]))
  {
    var perms := Permutations(shopping);
    var costs := CandidateCosts(dist, perms);
    PermutationsComplete(shopping, shopping);
    assert |costs| > 0;
    assert costs[0].Some?;
    FirstMinIsFirstMinimum(costs);
    assert forall k | 0 <= k < |perms| :: costs[k] == RouteCost(dist, Candidate(perms[k]));
  }

  /** Every leg of the selected ordering has a path returned by `sp`. */
  predicate AllSegmentsFound(sp: (Node, Node) -> Option<seq<Node>>, stops: seq<Node>) {
    forall i | 0 <= i < |stops| - 1 :: sp(stops[i], stops[i + 1]).Some?
  }

  /** The stitching of finalcode.py:132-136: the expansion when every leg
      has a path, otherwise the exception. */
  function FixedStitch(sp: (Node, Node) -> Option<seq<Node>>, stops: seq<Node>): Result<seq<Node>, ScriptError>
    requires |stops| >= 1
  {
    if AllSegmentsFound(sp, stops) then Success(Expand(sp, stops)) else Failure(NoPathRaised)
  }

  /** The stitching loop of finalcode.py:132-136, which has no `try`. */
  method StitchAll(sp: (Node, Node) -> Option<seq<Node>>, minPath: seq<Node>) returns (r: Result<seq<Node>, ScriptError>)
    requires |minPath| >= 1
    ensures r == FixedStitch(sp, minPath)
  {
    var optimalPath := [];
    for i := 0 to |minPath| - 1
      invariant optimalPath == Segments(sp, minPath[..i + 1])
      invariant forall j | 0 <= j < i :: sp(minPath[j], minPath[j + 1]).Some?
    {
      assert minPath[..i + 2][..i + 1] == minPath[..i + 1];
      match sp(minPath[i], minPath[i + 1]) {
        case None =>
          return Failure(NoPathRaised);
        case Some(p) =>
          optimalPath := optimalPath + DropLast(p);
      }
    }
    assert minPath[..|minPath|] == minPath;
    return Success(optimalPath + [minPath[|minPath| - 1]]);
  }

  /** The route the script computes for a given list, or the exception. */
  function FixedPlan(dist: (Node, Node) -> Option<real>, sp: (Node, Node) -> Option<seq<Node>>, shopping: seq<Node>): Result<seq<Node>, ScriptError> {
    match FixedSearch(dist, shopping)
    case Failure(e) => Failure(e)
    case Success(stops) => FixedStitch(sp, stops)
  }

  /** finalcode.py:104-136 on its own shopping list. */
  method RunScript(dist: (Node, Node) -> Option<real>, sp: (Node, Node) -> Option<seq<Node>>) returns (r: Result<seq<Node>, ScriptError>)
    ensures r == FixedPlan(dist, sp, ShoppingList)
  {
    var minPath := SearchAll(dist, ShoppingList);
    if minPath.Failure? {
      return Failure(minPath.error);
    }
    r := StitchAll(sp, minPath.value);
  }

  /** `subgraph_edges` of finalcode.py:139: each consecutive pair of the path. */
  function PathEdges(p: seq<Node>): (r: seq<(Node, Node)>)
    ensures |p| == 0 ==> r == []
    ensures |p| >= 1 ==> |r| == |p| - 1
    ensures forall i | 0 <= i < |r| :: r[i].0 == p[i] && r[i].1 == p[i + 1]
  {
    if |p| < 2 then [] else seq(|p| - 1, i requires 0 <= i < |p| - 1 => (p[i], p[i + 1]))
  }

  /** A walk of length n has n - 1 edges, each a consecutive pair of the walk
      and each an edge of the graph. */
  lemma PathEdgesOfWalk(g: Graph, p: seq<Node>)
    requires IsWalk(g, p)
    ensures |PathEdges(p)| == |p| - 1
    ensures forall i | 0 <= i < |PathEdges(p)| :: PathEdges(p)[i] == (p[i], p[i + 1])
    ensures forall e | e in PathEdges(p) :: e in g.weight
  {
    forall e | e in PathEdges(p) ensures e in g.weight {
      var i :| 0 <= i < |PathEdges(p)| && PathEdges(p)[i] == e;
      assert e == (p[i], p[i + 1]);
    }
  }

  /** The search never raises exactly when every ordering of the list has all
      its legs reachable; when it succeeds it picks what the akash.py search
      picks. */
  lemma FixedSearchSucceedsIff(dist: (Node, Node) -> Option<real>, shopping: seq<Node>)
    ensures FixedSearch(dist, shopping).Success? <==>
              forall perm | multiset(perm) == multiset(shopping) :: RouteCost(dist, Candidate(perm)).Some?
    ensures FixedSearch(dist, shopping).Success? ==> ExactStops(dist, shopping) == Some(FixedSearch(dist, shopping).value)
  {
    var perms := Permutations(shopping);
    PermutationsSound(shopping);
    ExactStopsNoneIff(dist, shopping);
    PermutationsComplete(shopping, shopping);
    if forall perm | multiset(perm) == multiset(shopping) :: RouteCost(dist, Candidate(perm)).Some? {
      assert forall k | 0 <= k < |perms| :: multiset(perms[k]) == multiset(shopping);
      assert RouteCost(dist, Candidate(shopping)).Some?;
    } else {
      var perm :| multiset(perm) == multiset(shopping) && RouteCost(dist, Candidate(perm)).None?;
      PermutationsComplete(shopping, perm);
      var k :| 0 <= k < |perms| && perms[k] == perm;
      assert !AllCandidatesReachable(dist, shopping);
    }
  }

  /** When every pair among Entrance, the items and Billing Counter is
      connected the search does not raise. */
  lemma ConnectedSearchSucceeds(dist: (Node, Node) -> Option<real>, shopping: seq<Node>)
    requires Connected(dist, [Entrance] + shopping + [BillingCounter])
    ensures FixedSearch(dist, shopping).Success?
  {
    var pool := [Entrance] + shopping + [BillingCounter];
    forall perm | multiset(perm) == multiset(shopping) ensures RouteCost(dist, Candidate(perm)).Some? {
      var c := Candidate(perm);
      forall i | 0 <= i < |c| ensures c[i] in pool {
        if 0 < i < |c| - 1 {
          assert c[i] == perm[i - 1];
          assert c[i] in multiset(shopping);
        }
      }
      RouteCostDefinedIff(dist, c);
    }
    FixedSearchSucceedsIff(dist, shopping);
  }

  /** With a consistent oracle, a successful search leaves a path for every
      leg, so the stitching does not raise either. */
  lemma SearchThenStitch(g: Graph, dist: (Node, Node) -> Option<real>, sp: (Node, Node) -> Option<seq<Node>>, shopping: seq<Node>)
    requires ConsistentOracle(g, dist, sp) && FixedSearch(dist, shopping).Success?
    ensures FixedPlan(dist, sp, shopping).Success? && ExactPlan(dist, sp, shopping).Success?
    ensures FixedPlan(dist, sp, shopping).value == ExactPlan(dist, sp, shopping).value
  {
    FixedSearchSucceedsIff(dist, shopping);
    ExactStopsOptimal(dist, shopping);
    var stops := FixedSearch(dist, shopping).value;
    RouteCostDefinedIff(dist, stops);
    forall i | 0 <= i < |stops| - 1 ensures sp(stops[i], stops[i + 1]).Some? {
      OracleLeg(g, dist, sp, stops[i], stops[i + 1]);
    }
  }

  /** There are 5! = 120 candidate orderings of the fixed list. */
  lemma FixedListCandidates()
    ensures |Permutations(ShoppingList)| == 120
  {
    PermutationsCount(ShoppingList);
    assert Factorial(5) == 120 by {
      assert Factorial(0) == 1;
      assert Factorial(1) == 1;
      assert Factorial(2) == 2;
      assert Factorial(3) == 6;
      assert Factorial(4) == 24;
    }
  }

  /** With a consistent oracle, when the search does not raise the script
      returns a path from Entrance to Billing Counter that visits the stops
      of the chosen ordering in order and weighs no more than any ordering;
      each of its `subgraph_edges` is an edge of the graph. */
  lemma FixedPlanRoute(g: Graph, dist: (Node, Node) -> Option<real>, sp: (Node, Node) -> Option<seq<Node>>, shopping: seq<Node>)
    requires ConsistentOracle(g, dist, sp) && FixedSearch(dist, shopping).Success?
    ensures FixedPlan(dist, sp, shopping).Success?
    ensures var path := FixedPlan(dist, sp, shopping).value;
      var stops := FixedSearch(dist, shopping).value;
      && IsPathBetween(g, Entrance, BillingCounter, path)
      && |stops| == |shopping| + 2
      && stops == Candidate(stops[1..|stops| - 1])
      && multiset(stops[1..|stops| - 1]) == multiset(shopping)
      && (forall i | 0 <= i < |stops| :: StopPosition(sp, stops, i) < |path| && path[StopPosition(sp, stops, i)] == stops[i])
      && (forall i, j | 0 <= i <= j < |stops| :: StopPosition(sp, stops, i) <= StopPosition(sp, stops, j))
      && (forall perm | multiset(perm) == multiset(shopping) ::
            RouteCost(dist, Candidate(perm)).Some? && WalkWeight(g, path) <= RouteCost(dist, Candidate(perm)).value)
      && |PathEdges(path)| == |path| - 1
      && (forall e | e in PathEdges(path) :: e in g.weight)
  {
    FixedSearchSucceedsIff(dist, shopping);
    SearchThenStitch(g, dist, sp, shopping);
    var stops := FixedSearch(dist, shopping).value;
    var path := FixedPlan(dist, sp, shopping).value;
    assert path == ExactPlan(dist, sp, shopping).value;
    assert IsPathBetween(g, Entrance, BillingCounter, path) &&
           forall perm | multiset(perm) == multiset(shopping) && RouteCost(dist, Candidate(perm)).Some? ::
             WalkWeight(g, path) <= RouteCost(dist, Candidate(perm)).value by {
      ExactPlanRoute(g, dist, sp, shopping);
    }
    assert |stops| == |shopping| + 2 && stops == Candidate(stops[1..|stops| - 1]) &&
           multiset(stops[1..|stops| - 1]) == multiset(shopping) && RouteCost(dist, stops).Some? by {
      ExactStopsOptimal(dist, shopping);
    }
    assert path == Expand(sp, stops);
    RouteCostDefinedIff(dist, stops);
    ExpandVisitsStops(g, dist, sp, stops);
    PathEdgesOfWalk(g, path);
  }

  /** finalcode.py on a connected store: the script does not raise. */
  lemma FixedListRoute(g: Graph, dist: (Node, Node) -> Option<real>, sp: (Node, Node) -> Option<seq<Node>>)
    requires ConsistentOracle(g, dist, sp)
    requires Connected(dist, [Entrance] + ShoppingList + [BillingCounter])
    ensures FixedSearch(dist, ShoppingList).Success? && FixedPlan(dist, sp, ShoppingList).Success?
    ensures IsPathBetween(g, Entrance, BillingCounter, FixedPlan(dist, sp, ShoppingList).value)
  {
    ConnectedSearchSucceeds(dist, ShoppingList);
    FixedPlanRoute(g, dist, sp, ShoppingList);
  }
}
