/** The "edges displayed" counter behind the Generate, Show Entire Graph,
    Show Next Edge and Show Previous Edge buttons: akash.py:117-123 and
    253-268 (a plain stepper), finalmodified.py:162-168 and 170-316 (a stepper
    whose Show Entire Graph button toggles and restores the count). */
module DisplayCounter {
  import opened Wrappers
  import opened StoreGraph

  /** The counts a path of `len` nodes allows: an edge count `0 ..= len - 1`; for
      the empty initial path, the `0` it starts at or the `len - 1 == -1` that
      Show Entire Graph stores. */
  predicate InRange(n: int, len: nat) {
    if len == 0 then n == 0 || n == -1 else 0 <= n <= len - 1
  }

  /** Show Next Edge: one more edge, only while below the last one. */
  function NextCount(n: int, len: nat): (r: int)
    ensures r == n + 1 <==> n < len - 1
    ensures r == n <==> n >= len - 1
    ensures InRange(n, len) ==> InRange(r, len)
  {
    if n < len - 1 then n + 1 else n
  }

  /** Show Previous Edge: one edge less, only while above zero. */
  function PreviousCount(n: int): (r: int)
    ensures r == n - 1 <==> n > 0
    ensures r == n <==> n <= 0
    ensures forall len: nat | InRange(n, len) :: InRange(r, len)
  {
    if n > 0 then n - 1 else n
  }

  /** Next then Previous is the identity whenever Next moved. */
  lemma NextThenPrevious(n: int, len: nat)
    requires InRange(n, len) && n < len - 1
    ensures PreviousCount(NextCount(n, len)) == n
  {
  }

  /** Previous then Next is the identity whenever Previous moved. */
  lemma PreviousThenNext(n: int, len: nat)
    requires InRange(n, len) && n > 0
    ensures NextCount(PreviousCount(n), len) == n
  {
  }

  function Min(a: int, b: int): int { if a <= b then a else b }
  function Max(a: int, b: int): int { if a >= b then a else b }

  /** `k` presses of Show Next Edge. */
  function NextTimes(n: int, len: nat, k: nat): int {
    if k == 0 then n else NextCount(NextTimes(n, len, k - 1), len)
  }

  /** `k` presses of Show Previous Edge. */
  function PreviousTimes(n: int, k: nat): int {
    if k == 0 then n else PreviousCount(PreviousTimes(n, k - 1))
  }

  /** Pressing Next `k` times advances by `k` edges, saturating at the last edge. */
  lemma {:induction false} NextTimesSaturates(n: int, len: nat, k: nat)
    requires len > 0 && InRange(n, len)
    ensures NextTimes(n, len, k) == Min(n + k, len - 1)
  {
    if k > 0 {
      NextTimesSaturates(n, len, k - 1);
    }
  }

  /** Pressing Previous `k` times goes back by `k` edges, saturating at zero. */
  lemma {:induction false} PreviousTimesSaturates(n: int, k: nat)
    requires n >= 0
    ensures PreviousTimes(n, k) == Max(n - k, 0)
  {
    if k > 0 {
      PreviousTimesSaturates(n, k - 1);
    }
  }

  /** Enough Next presses always reach the whole path, enough Previous presses
      always reach the empty display. */
  lemma StepsReachEnds(n: int, len: nat)
    requires len > 0 && InRange(n, len)
    ensures NextTimes(n, len, len) == len - 1
    ensures PreviousTimes(n, len) == 0
  {
    NextTimesSaturates(n, len, len);
    PreviousTimesSaturates(n, len);
  }

  /** The session state of akash.py:117-123 (the graph and the node
      positions it also keeps are not modelled). */
  class StepSession {
    var numEdgesDisplayed: int
    var optimalPath: seq<Node>
    var showFullGraph: bool

    ghost predicate Valid()
      reads this
    {
      InRange(numEdgesDisplayed, |optimalPath|)
    }

    /** The first run of the page: count 0, no path, partial view. */
    constructor ()
      ensures Valid()
      ensures numEdgesDisplayed == 0 && optimalPath == [] && !showFullGraph
    {
      numEdgesDisplayed := 0;
      optimalPath := [];
      showFullGraph := false;
    }

    /** Generate Optimal Path (akash.py:126-247): store the planner's route and
        reset to the partial view with count 0; when the planner raised, the
        run stops before any of this and nothing changes. */
    method Generate<E>(plan: Result<seq<Node>, E>)
      requires Valid()
      modifies this
      ensures Valid()
      ensures plan.Success? ==>
        optimalPath == plan.value && numEdgesDisplayed == 0 && !showFullGraph
      ensures plan.Failure? ==>
        optimalPath == old(optimalPath) && numEdgesDisplayed == old(numEdgesDisplayed)
          && showFullGraph == old(showFullGraph)
    {
      if plan.Success? {
        optimalPath := plan.value;
        numEdgesDisplayed := 0;
        showFullGraph := false;
      }
    }

    /** Show Entire Graph (akash.py:253-256): full view, every edge counted. */
    method ShowEntireGraph()
      requires Valid()
      modifies this
      ensures Valid()
      ensures showFullGraph && numEdgesDisplayed == |optimalPath| - 1
      ensures optimalPath == old(optimalPath)
    {
      showFullGraph := true;
      numEdgesDisplayed := |optimalPath| - 1;
    }

    /** Show Next Edge (akash.py:259-262). */
    method ShowNextEdge()
      requires Valid()
      modifies this
      ensures Valid()
      ensures numEdgesDisplayed == NextCount(old(numEdgesDisplayed), |optimalPath|)
      ensures optimalPath == old(optimalPath) && showFullGraph == old(showFullGraph)
    {
      if numEdgesDisplayed < |optimalPath| - 1 {
        numEdgesDisplayed := numEdgesDisplayed + 1;
      }
    }

    /** Show Previous Edge (akash.py:265-268). */
    method ShowPreviousEdge()
      requires Valid()
      modifies this
      ensures Valid()
      ensures numEdgesDisplayed == PreviousCount(old(numEdgesDisplayed))
      ensures optimalPath == old(optimalPath) && showFullGraph == old(showFullGraph)
    {
      if numEdgesDisplayed > 0 {
        numEdgesDisplayed := numEdgesDisplayed - 1;
      }
    }
  }

  /** The counter part of finalmodified.py's session state: the count shown,
      the count saved when the full view was switched on, and the view flag. */
  datatype View = View(shown: int, saved: int, full: bool)

  predicate ViewInRange(v: View, len: nat) {
    InRange(v.shown, len) && InRange(v.saved, len)
  }

  /** Generate Optimal Path (finalmodified.py:288-290): everything back to 0 and partial. */
  function ResetView(): (r: View)
    ensures forall len: nat :: ViewInRange(r, len)
    ensures !r.full
  {
    View(0, 0, false)
  }

  /** Show Entire Graph (finalmodified.py:295-304): switching the full view on
      saves the count and shows every edge; switching it off brings back the
      saved count. */
  function ToggleView(v: View, len: nat): (r: View)
    ensures r.full == !v.full
    ensures v.full ==> r.shown == v.saved && r.saved == v.saved
    ensures !v.full ==> r.shown == len - 1 && r.saved == v.shown
    ensures ViewInRange(v, len) ==> ViewInRange(r, len)
  {
    if v.full then v.(shown := v.saved, full := false)
    else View(len - 1, v.shown, true)
  }

  /** Show Next Edge (finalmodified.py:307-310), in either view. */
  function NextView(v: View, len: nat): (r: View)
    ensures r.saved == v.saved && r.full == v.full
    ensures r.shown == NextCount(v.shown, len)
    ensures ViewInRange(v, len) ==> ViewInRange(r, len)
  {
    v.(shown := NextCount(v.shown, len))
  }

  /** Show Previous Edge (finalmodified.py:313-316), in either view. */
  function PreviousView(v: View, len: nat): (r: View)
    ensures r.saved == v.saved && r.full == v.full
    ensures r.shown == PreviousCount(v.shown)
    ensures ViewInRange(v, len) ==> ViewInRange(r, len)
  {
    v.(shown := PreviousCount(v.shown))
  }

  /** Switching the full view on and off again restores the count. */
  lemma ToggleTwiceRestores(v: View, len: nat)
    requires !v.full
    ensures ToggleView(ToggleView(v, len), len) == View(v.shown, v.shown, false)
  {
  }

  /** Switching the full view off and on again shows every edge, whatever
      count was stepped to while it was on. */
  lemma ToggleTwiceShowsAll(v: View, len: nat)
    requires v.full
    ensures ToggleView(ToggleView(v, len), len) == View(len - 1, v.saved, true)
  {
  }

  /** A sequence of Next/Previous presses. */
  datatype Step = NextStep | PreviousStep

  function StepView(v: View, len: nat, s: Step): View {
    match s
    case NextStep => NextView(v, len)
    case PreviousStep => PreviousView(v, len)
  }

  function Steps(v: View, len: nat, steps: seq<Step>): View
    decreases |steps|
  {
    if |steps| == 0 then v else StepView(Steps(v, len, steps[..|steps| - 1]), len, steps[|steps| - 1])
  }

  /** Stepping keeps the saved count, the view flag and the bounds. */
  lemma {:induction false} StepsKeepSaved(v: View, len: nat, steps: seq<Step>)
    ensures Steps(v, len, steps).saved == v.saved && Steps(v, len, steps).full == v.full
    ensures ViewInRange(v, len) ==> ViewInRange(Steps(v, len, steps), len)
    decreases |steps|
  {
    if |steps| > 0 {
      StepsKeepSaved(v, len, steps[..|steps| - 1]);
    }
  }

  /** However the edges were stepped through in the full view, switching it
      off returns to the count it was switched on from. */
  lemma ToggleRestoresAfterSteps(v: View, len: nat, steps: seq<Step>)
    requires !v.full
    ensures ToggleView(Steps(ToggleView(v, len), len, steps), len).shown == v.shown
    ensures !ToggleView(Steps(ToggleView(v, len), len, steps), len).full
  {
    StepsKeepSaved(ToggleView(v, len), len, steps);
  }

  /** The session state of finalmodified.py:162-168 (the graph and the node
      positions it also keeps are not modelled). */
  class ToggleSession {
    var numEdgesDisplayed: int
    var previousNumEdgesDisplayed: int
    var optimalPath: seq<Node>
    var showFullGraph: bool

    function CurrentView(): View
      reads this
    {
      View(numEdgesDisplayed, previousNumEdgesDisplayed, showFullGraph)
    }

    ghost predicate Valid()
      reads this
    {
      ViewInRange(CurrentView(), |optimalPath|)
    }

    /** The first run of the page: both counts 0, no path, partial view. */
    constructor ()
      ensures Valid()
      ensures CurrentView() == ResetView() && optimalPath == []
    {
      numEdgesDisplayed := 0;
      previousNumEdgesDisplayed := 0;
      optimalPath := [];
      showFullGraph := false;
    }

    /** Generate Optimal Path (finalmodified.py:170-292): store the planner's
        route and reset the counter; when the planner raised, nothing changes. */
    method Generate<E>(plan: Result<seq<Node>, E>)
      requires Valid()
      modifies this
      ensures Valid()
      ensures plan.Success? ==> optimalPath == plan.value && CurrentView() == ResetView()
      ensures plan.Failure? ==> optimalPath == old(optimalPath) && CurrentView() == old(CurrentView())
    {
      if plan.Success? {
        optimalPath := plan.value;
        numEdgesDisplayed := 0;
        showFullGraph := false;
        previousNumEdgesDisplayed := 0;
      }
    }

    /** Show Entire Graph (finalmodified.py:295-304). */
    method ToggleEntireGraph()
      requires Valid()
      modifies this
      ensures Valid()
      ensures CurrentView() == ToggleView(old(CurrentView()), |optimalPath|)
      ensures optimalPath == old(optimalPath)
    {
      if showFullGraph {
        showFullGraph := false;
        numEdgesDisplayed := previousNumEdgesDisplayed;
      } else {
        previousNumEdgesDisplayed := numEdgesDisplayed;
        showFullGraph := true;
        numEdgesDisplayed := |optimalPath| - 1;
      }
    }

    /** Show Next Edge (finalmodified.py:307-310). */
    method ShowNextEdge()
      requires Valid()
      modifies this
      ensures Valid()
      ensures CurrentView() == NextView(old(CurrentView()), |optimalPath|)
      ensures optimalPath == old(optimalPath)
    {
      if numEdgesDisplayed < |optimalPath| - 1 {
        numEdgesDisplayed := numEdgesDisplayed + 1;
      }
    }

    /** Show Previous Edge (finalmodified.py:313-316). */
    method ShowPreviousEdge()
      requires Valid()
      modifies this
      ensures Valid()
      ensures CurrentView() == PreviousView(old(CurrentView()), |optimalPath|)
      ensures optimalPath == old(optimalPath)
    {
      if numEdgesDisplayed > 0 {
        numEdgesDisplayed := numEdgesDisplayed - 1;
      }
    }
  }
}
