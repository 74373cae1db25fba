// The tree-search planner: starting from the grounded parts, repeatedly pick
// the first remaining part whose neighbours are all placed, reject it when
// its path is blocked or it would destabilise the structure, and otherwise
// place it as the next step.
module TreeSearch {
  import opened Common
  import opened DomainModel
  import opened Graphs

  /** What the stability analyser reports: the margin and its three-decimal rendering. */
  datatype Stability = Stability(margin: real, marginText: string)

  const UnplaceableMessage := "Unable to find a part " + "whose neighbours are already placed."

  const IncompleteMessage := "Tree search solver " + "failed to place all parts."

  function BlockedMessage(id: string): (r: string)
    ensures r != UnplaceableMessage && r != IncompleteMessage
  {
    var m := "Path for part '" + id + "' is blocked by already placed parts.";
    assert m[0] == 'P' && UnplaceableMessage[0] == 'U' && IncompleteMessage[0] == 'T';
    m
  }

  function UnstableMessage(id: string, s: Stability): (r: string)
    ensures r != UnplaceableMessage && r != IncompleteMessage
  {
    var m := "Adding part '" + id + "' would destabilise the structure (margin " + s.marginText + ").";
    assert m[0] == 'A' && UnplaceableMessage[0] == 'U' && IncompleteMessage[0] == 'T';
    m
  }

  /** Part ids with the grounded ones taken out, first occurrences in order (Except, then ToHashSet). */
  function Remaining(ids: seq<string>, grounded: set<string>): (r: seq<string>)
    ensures Distinct(r)
    ensures forall x :: x in r <==> x in ids && x !in grounded
    decreases |ids|
  {
    if ids == [] then []
    else
      var init := ids[..|ids| - 1];
      var x := ids[|ids| - 1];
      assert forall y :: y in ids <==> y in init || y == x;
      var r := Remaining(init, grounded);
      if x in grounded || x in r then r
      else
        assert forall i :: 0 <= i < |r| ==> r[i] != x;
        r + [x]
  }

  /** Every neighbour of the part is already placed. */
  predicate Ready(adjacency: Graph, placed: set<string>, id: string)
  {
    Neighbours(adjacency, id) <= placed
  }

  /** remaining.FirstOrDefault(...): the position of the first ready part, if any. */
  function FirstReady(remaining: seq<string>, adjacency: Graph, placed: set<string>): (r: Option<nat>)
    ensures r.Some? ==> r.value < |remaining| && Ready(adjacency, placed, remaining[r.value])
    ensures r.Some? ==> forall j :: 0 <= j < r.value ==> !Ready(adjacency, placed, remaining[j])
    ensures r.None? ==> forall j :: 0 <= j < |remaining| ==> !Ready(adjacency, placed, remaining[j])
    decreases |remaining|
  {
    if remaining == [] then None
    else if Ready(adjacency, placed, remaining[0]) then Some(0)
    else
      match FirstReady(remaining[1..], adjacency, placed)
      case None => None
      case Some(i) => Some(i + 1)
  }

  // ---------------------------------------------------------------------
  // The loop as a recursive reference
  // ---------------------------------------------------------------------

  datatype SearchState = SearchState(
    placed: set<string>, remaining: seq<string>, steps: seq<PlanStep>, diagnostics: seq<string>)

  /** How the loop ends: the steps, the diagnostics, and whether remaining ran empty. */
  datatype Outcome = Outcome(steps: seq<PlanStep>, diagnostics: seq<string>, emptied: bool)

  function RemoveAt(s: seq<string>, i: nat): seq<string>
    requires i < |s|
  {
    s[..i] + s[i + 1..]
  }

  /**
   * One run of the while loop from the given state. The path check and the
   * stability analysis are the oracles pathFeasible and stability; the part
   * lookup the path check needs is built on first use and fails on parts that
   * share an id but differ.
   */
  function Search(
    a: Assembly, adjacency: Graph, pathFeasible: (string, set<string>) -> bool,
    stability: set<string> -> Stability, s: SearchState): Result<Outcome, Exception>
    decreases |s.remaining|
  {
    if s.remaining == [] then Ok(Outcome(s.steps, s.diagnostics, true))
    else
      match FirstReady(s.remaining, adjacency, s.placed)
      case None => Ok(Outcome(s.steps, s.diagnostics + [UnplaceableMessage], false))
      case Some(i) =>
        var c := s.remaining[i];
        var rest := RemoveAt(s.remaining, i);
        if PartLookup(a).Err? then Err(PartLookup(a).error)
        else if !pathFeasible(c, s.placed) then
          Search(a, adjacency, pathFeasible, stability,
                 SearchState(s.placed, rest, s.steps, s.diagnostics + [BlockedMessage(c)]))
        else
          var st := stability(s.placed + {c});
          if st.margin < 0.0 then
            Search(a, adjacency, pathFeasible, stability,
                   SearchState(s.placed, rest, s.steps, s.diagnostics + [UnstableMessage(c, st)]))
          else
            Search(a, adjacency, pathFeasible, stability,
                   SearchState(s.placed + {c}, rest, s.steps + [PlanStep(|s.steps|, "Place", c, None)], s.diagnostics))
  }

  function StartState(a: Assembly, groundedPartIds: seq<string>): SearchState
  {
    var grounded := Members(groundedPartIds);
    SearchState(grounded, Remaining(Ids(a.parts), grounded), [], [])
  }

  function PlanOf(o: Outcome): AssemblyPlan
  {
    AssemblyPlan("TreeSearch", o.steps, o.emptied,
                 if o.emptied then o.diagnostics else o.diagnostics + [IncompleteMessage])
  }

  /** The plan TreeSearchSolver.Solve returns for non-null arguments. */
  function SolvePlan(
    a: Assembly, adjacency: Graph, groundedPartIds: seq<string>,
    pathFeasible: (string, set<string>) -> bool, stability: set<string> -> Stability): Result<AssemblyPlan, Exception>
  {
    match Search(a, adjacency, pathFeasible, stability, StartState(a, groundedPartIds))
    case Err(e) => Err(e)
    case Ok(o) => Ok(PlanOf(o))
  }

  /** TreeSearchSolver.Solve. */
  method Solve(
    assembly: Option<Assembly>, adjacency: Option<Graph>, groundedPartIds: Option<seq<string>>,
    pathFeasible: (string, set<string>) -> bool, stability: set<string> -> Stability)
    returns (r: Result<AssemblyPlan, Exception>)
    ensures assembly.None? ==> r == Err(ArgumentNullException("assembly"))
    ensures assembly.Some? && adjacency.None? ==> r == Err(ArgumentNullException("adjacency"))
    ensures assembly.Some? && adjacency.Some? && groundedPartIds.None? ==> r == Err(ArgumentNullException("groundedPartIds"))
    ensures assembly.Some? && adjacency.Some? && groundedPartIds.Some? ==>
      r == SolvePlan(assembly.value, adjacency.value, groundedPartIds.value, pathFeasible, stability)
  {
    if assembly.None? {
      return Err(ArgumentNullException("assembly"));
    }
    if adjacency.None? {
      return Err(ArgumentNullException("adjacency"));
    }
    if groundedPartIds.None? {
      return Err(ArgumentNullException("groundedPartIds"));
    }
    var a := assembly.value;
    var graph := adjacency.value;
    var start := StartState(a, groundedPartIds.value);
    var grounded := Members(groundedPartIds.value);
    var placed := grounded;
    var remaining := Remaining(Ids(a.parts), grounded);
    var steps: seq<PlanStep> := [];
    var diagnostics: seq<string> := [];
    var index := 0;
    while remaining != []
      invariant index == |steps|
      invariant Search(a, graph, pathFeasible, stability, SearchState(placed, remaining, steps, diagnostics))
             == Search(a, graph, pathFeasible, stability, start)
      decreases |remaining|
    {
      var found := FirstReady(remaining, graph, placed);
      if found.None? {
        diagnostics := diagnostics + [UnplaceableMessage];
        assert Search(a, graph, pathFeasible, stability, start) == Ok(Outcome(steps, diagnostics, false));
        break;
      }
      var candidate := remaining[found.value];
      var lookup := PartLookup(a);
      if lookup.Err? {
        return Err(lookup.error);
      }
      if !pathFeasible(candidate, placed) {
        diagnostics := diagnostics + [BlockedMessage(candidate)];
        remaining := RemoveAt(remaining, found.value);
        continue;
      }
      var st := stability(placed + {candidate});
      if st.margin < 0.0 {
        diagnostics := diagnostics + [UnstableMessage(candidate, st)];
        remaining := RemoveAt(remaining, found.value);
        continue;
      }
      steps := steps + [PlanStep(index, "Place", candidate, None)];
      index := index + 1;
      placed := placed + {candidate};
      remaining := RemoveAt(remaining, found.value);
    }
    var isValid := remaining == [];
    assert Search(a, graph, pathFeasible, stability, start) == Ok(Outcome(steps, diagnostics, isValid));
    if !isValid {
      diagnostics := diagnostics + [IncompleteMessage];
    }
    return Ok(AssemblyPlan("TreeSearch", steps, isValid, diagnostics));
  }

  // ---------------------------------------------------------------------
  // What the plan satisfies
  // ---------------------------------------------------------------------

  /** The parts the steps place. */
  function Placed(steps: seq<PlanStep>): set<string>
    decreases |steps|
  {
    if steps == [] then {} else Placed(steps[..|steps| - 1]) + {steps[|steps| - 1].partId}
  }

  /**
   * Each step is the next index, places a part not yet placed whose neighbours
   * all are, whose path the checker accepts and whose addition keeps the
   * stability margin non-negative.
   */
  predicate GoodSteps(
    adjacency: Graph, grounded: set<string>, pathFeasible: (string, set<string>) -> bool,
    stability: set<string> -> Stability, steps: seq<PlanStep>)
    decreases |steps|
  {
    steps == [] ||
    var init := steps[..|steps| - 1];
    var s := steps[|steps| - 1];
    var before := grounded + Placed(init);
    && GoodSteps(adjacency, grounded, pathFeasible, stability, init)
    && s == PlanStep(|init|, "Place", s.partId, None)
    && s.partId !in before
    && Ready(adjacency, before, s.partId)
    && pathFeasible(s.partId, before)
    && stability(before + {s.partId}).margin >= 0.0
  }

  /** No diagnostic so far is the final summary line or the no-candidate line. */
  predicate OnlyRejections(diagnostics: seq<string>)
  {
    forall k :: 0 <= k < |diagnostics| ==> diagnostics[k] != UnplaceableMessage && diagnostics[k] != IncompleteMessage
  }

  predicate StepsAmong(steps: seq<PlanStep>, ids: seq<string>)
  {
    forall k :: 0 <= k < |steps| ==> steps[k].partId in ids
  }

  /** The loop invariant of the planner, relative to the initial remaining ids. */
  predicate Inv(
    adjacency: Graph, grounded: set<string>, pathFeasible: (string, set<string>) -> bool,
    stability: set<string> -> Stability, start: seq<string>, s: SearchState)
  {
    && s.placed == grounded + Placed(s.steps)
    && Distinct(s.remaining)
    && (forall x :: x in s.remaining ==> x in start && x !in s.placed)
    && GoodSteps(adjacency, grounded, pathFeasible, stability, s.steps)
    && StepsAmong(s.steps, start)
    && |s.steps| + |s.diagnostics| + |s.remaining| == |start|
    && OnlyRejections(s.diagnostics)
  }

  /** What the loop's outcome satisfies. */
  predicate GoodOutcome(
    adjacency: Graph, grounded: set<string>, pathFeasible: (string, set<string>) -> bool,
    stability: set<string> -> Stability, start: seq<string>, o: Outcome)
  {
    && GoodSteps(adjacency, grounded, pathFeasible, stability, o.steps)
    && StepsAmong(o.steps, start)
    && (o.emptied ==> |o.steps| + |o.diagnostics| == |start| && OnlyRejections(o.diagnostics))
    && (!o.emptied ==>
          && |o.diagnostics| > 0
          && o.diagnostics[|o.diagnostics| - 1] == UnplaceableMessage
          && OnlyRejections(o.diagnostics[..|o.diagnostics| - 1])
          && |o.steps| + |o.diagnostics| <= |start|)
  }

  lemma RemoveAtFacts(s: seq<string>, i: nat)
    requires i < |s| && Distinct(s)
    ensures |RemoveAt(s, i)| == |s| - 1
    ensures Distinct(RemoveAt(s, i))
    ensures forall x :: x in RemoveAt(s, i) <==> x in s && x != s[i]
  {
    var r := RemoveAt(s, i);
    assert forall k :: 0 <= k < i ==> r[k] == s[k];
    assert forall k :: i <= k < |r| ==> r[k] == s[k + 1];
    forall x
      ensures x in r <==> x in s && x != s[i]
    {
      if x in s && x != s[i] {
        var k :| 0 <= k < |s| && s[k] == x;
        if k < i {
          assert r[k] == x;
        } else {
          assert r[k - 1] == x;
        }
      }
    }
  }

  lemma OnlyRejectionsSnoc(diagnostics: seq<string>, d: string)
    requires OnlyRejections(diagnostics) && d != UnplaceableMessage && d != IncompleteMessage
    ensures OnlyRejections(diagnostics + [d])
  {
  }

  lemma StepSnoc(
    adjacency: Graph, grounded: set<string>, pathFeasible: (string, set<string>) -> bool,
    stability: set<string> -> Stability, steps: seq<PlanStep>, c: string)
    requires GoodSteps(adjacency, grounded, pathFeasible, stability, steps)
    requires c !in grounded + Placed(steps) && Ready(adjacency, grounded + Placed(steps), c)
    requires pathFeasible(c, grounded + Placed(steps))
    requires stability(grounded + Placed(steps) + {c}).margin >= 0.0
    ensures Placed(steps + [PlanStep(|steps|, "Place", c, None)]) == Placed(steps) + {c}
    ensures GoodSteps(adjacency, grounded, pathFeasible, stability, steps + [PlanStep(|steps|, "Place", c, None)])
  {
    var next := steps + [PlanStep(|steps|, "Place", c, None)];
    assert next[..|next| - 1] == steps;
  }

  lemma StepsAmongSnoc(steps: seq<PlanStep>, ids: seq<string>, s: PlanStep)
    requires StepsAmong(steps, ids) && s.partId in ids
    ensures StepsAmong(steps + [s], ids)
  {
  }

  /** Rejecting the candidate at position i, with a rejection line, keeps the invariant. */
  lemma RejectKeepsInv(
    adjacency: Graph, grounded: set<string>, pathFeasible: (string, set<string>) -> bool,
    stability: set<string> -> Stability, start: seq<string>, s: SearchState, i: nat, d: string)
    requires Inv(adjacency, grounded, pathFeasible, stability, start, s)
    requires i < |s.remaining| && d != UnplaceableMessage && d != IncompleteMessage
    ensures Inv(adjacency, grounded, pathFeasible, stability, start,
                SearchState(s.placed, RemoveAt(s.remaining, i), s.steps, s.diagnostics + [d]))
  {
    RemoveAtFacts(s.remaining, i);
    OnlyRejectionsSnoc(s.diagnostics, d);
  }

  /** Placing the ready, feasible and stable candidate at position i keeps the invariant. */
  lemma PlaceKeepsInv(
    adjacency: Graph, grounded: set<string>, pathFeasible: (string, set<string>) -> bool,
    stability: set<string> -> Stability, start: seq<string>, s: SearchState, i: nat)
    requires Inv(adjacency, grounded, pathFeasible, stability, start, s)
    requires i < |s.remaining| && Ready(adjacency, s.placed, s.remaining[i])
    requires pathFeasible(s.remaining[i], s.placed)
    requires stability(s.placed + {s.remaining[i]}).margin >= 0.0
    ensures Inv(adjacency, grounded, pathFeasible, stability, start,
                SearchState(s.placed + {s.remaining[i]}, RemoveAt(s.remaining, i),
                            s.steps + [PlanStep(|s.steps|, "Place", s.remaining[i], None)], s.diagnostics))
  {
    var c := s.remaining[i];
    RemoveAtFacts(s.remaining, i);
    StepSnoc(adjacency, grounded, pathFeasible, stability, s.steps, c);
    StepsAmongSnoc(s.steps, start, PlanStep(|s.steps|, "Place", c, None));
  }

  /** Each iteration keeps the invariant, so the loop's outcome is a good one. */
  lemma {:induction false} SearchGood(
    a: Assembly, adjacency: Graph, grounded: set<string>, pathFeasible: (string, set<string>) -> bool,
    stability: set<string> -> Stability, start: seq<string>, s: SearchState)
    requires Inv(adjacency, grounded, pathFeasible, stability, start, s)
    requires Search(a, adjacency, pathFeasible, stability, s).Ok?
    ensures GoodOutcome(adjacency, grounded, pathFeasible, stability, start, Search(a, adjacency, pathFeasible, stability, s).value)
    decreases |s.remaining|
  {
    if s.remaining != [] {
      match FirstReady(s.remaining, adjacency, s.placed)
      case None =>
        var ds := s.diagnostics + [UnplaceableMessage];
        assert ds[..|ds| - 1] == s.diagnostics;
      case Some(i) =>
        var c := s.remaining[i];
        var rest := RemoveAt(s.remaining, i);
        if !pathFeasible(c, s.placed) {
          RejectKeepsInv(adjacency, grounded, pathFeasible, stability, start, s, i, BlockedMessage(c));
          SearchGood(a, adjacency, grounded, pathFeasible, stability, start,
                     SearchState(s.placed, rest, s.steps, s.diagnostics + [BlockedMessage(c)]));
        } else {
          var st := stability(s.placed + {c});
          if st.margin < 0.0 {
            RejectKeepsInv(adjacency, grounded, pathFeasible, stability, start, s, i, UnstableMessage(c, st));
            SearchGood(a, adjacency, grounded, pathFeasible, stability, start,
                       SearchState(s.placed, rest, s.steps, s.diagnostics + [UnstableMessage(c, st)]));
          } else {
            PlaceKeepsInv(adjacency, grounded, pathFeasible, stability, start, s, i);
            SearchGood(a, adjacency, grounded, pathFeasible, stability, start,
                       SearchState(s.placed + {c}, rest, s.steps + [PlanStep(|s.steps|, "Place", c, None)], s.diagnostics));
          }
        }
    }
  }

  /** The properties of a plan the tree search returns. */
  predicate GoodPlan(
    a: Assembly, adjacency: Graph, groundedPartIds: seq<string>,
    pathFeasible: (string, set<string>) -> bool, stability: set<string> -> Stability, plan: AssemblyPlan)
  {
    var grounded := Members(groundedPartIds);
    var start := Remaining(Ids(a.parts), grounded);
    var n := |plan.diagnostics|;
    && plan.name == "TreeSearch"
    && GoodSteps(adjacency, grounded, pathFeasible, stability, plan.steps)
    && StepsAmong(plan.steps, start)
    && (plan.isValid ==> |plan.steps| + n == |start| && OnlyRejections(plan.diagnostics))
    && (!plan.isValid ==>
          && n >= 2
          && plan.diagnostics[n - 1] == IncompleteMessage
          && plan.diagnostics[n - 2] == UnplaceableMessage
          && OnlyRejections(plan.diagnostics[..n - 2])
          && |plan.steps| + n <= |start| + 1)
  }

  /**
   * A returned plan places only non-grounded part ids, each once and in a good
   * order; it is valid exactly when every non-grounded id was placed or rejected
   * with one diagnostic, and otherwise ends with the no-candidate line and the
   * failure summary.
   */
  lemma SolvePlanGood(
    a: Assembly, adjacency: Graph, groundedPartIds: seq<string>,
    pathFeasible: (string, set<string>) -> bool, stability: set<string> -> Stability)
    requires SolvePlan(a, adjacency, groundedPartIds, pathFeasible, stability).Ok?
    ensures GoodPlan(a, adjacency, groundedPartIds, pathFeasible, stability,
                     SolvePlan(a, adjacency, groundedPartIds, pathFeasible, stability).value)
  {
    var grounded := Members(groundedPartIds);
    var start := StartState(a, groundedPartIds);
    assert Inv(adjacency, grounded, pathFeasible, stability, start.remaining, start);
    SearchGood(a, adjacency, grounded, pathFeasible, stability, start.remaining, start);
    OutcomePlanGood(a, adjacency, groundedPartIds, pathFeasible, stability,
                    Search(a, adjacency, pathFeasible, stability, start).value);
  }

  /** A good outcome of the search from the start state gives a good plan. */
  lemma OutcomePlanGood(
    a: Assembly, adjacency: Graph, groundedPartIds: seq<string>,
    pathFeasible: (string, set<string>) -> bool, stability: set<string> -> Stability, o: Outcome)
    requires GoodOutcome(adjacency, Members(groundedPartIds), pathFeasible, stability,
                         Remaining(Ids(a.parts), Members(groundedPartIds)), o)
    ensures GoodPlan(a, adjacency, groundedPartIds, pathFeasible, stability, PlanOf(o))
  {
    if !o.emptied {
      var ds := o.diagnostics + [IncompleteMessage];
      assert ds[..|ds| - 2] == o.diagnostics[..|o.diagnostics| - 1];
    }
  }

  /** The plan is valid exactly when no part was left without a placeable candidate. */
  lemma SolvePlanValidIff(
    a: Assembly, adjacency: Graph, groundedPartIds: seq<string>,
    pathFeasible: (string, set<string>) -> bool, stability: set<string> -> Stability)
    requires SolvePlan(a, adjacency, groundedPartIds, pathFeasible, stability).Ok?
    ensures var plan := SolvePlan(a, adjacency, groundedPartIds, pathFeasible, stability).value;
      plan.isValid <==> UnplaceableMessage !in plan.diagnostics
  {
    SolvePlanGood(a, adjacency, groundedPartIds, pathFeasible, stability);
    var plan := SolvePlan(a, adjacency, groundedPartIds, pathFeasible, stability).value;
    if !plan.isValid {
      assert plan.diagnostics[|plan.diagnostics| - 2] == UnplaceableMessage;
    }
  }

  /** Steps are numbered from zero, all placements, and of parts that are not grounded. */
  lemma {:induction false} GoodStepsIndexed(
    adjacency: Graph, grounded: set<string>, pathFeasible: (string, set<string>) -> bool,
    stability: set<string> -> Stability, steps: seq<PlanStep>, k: nat)
    requires GoodSteps(adjacency, grounded, pathFeasible, stability, steps) && k < |steps|
    ensures steps[k].index == k && steps[k].action == "Place" && steps[k].partId !in grounded
    ensures Ready(adjacency, grounded + Placed(steps[..k]), steps[k].partId)
    decreases |steps|
  {
    var init := steps[..|steps| - 1];
    if k < |init| {
      GoodStepsIndexed(adjacency, grounded, pathFeasible, stability, init, k);
      assert init[..k] == steps[..k];
    } else {
      assert steps[..k] == init;
    }
  }

  lemma {:induction false} PlacedMembers(steps: seq<PlanStep>, k: nat)
    requires k < |steps|
    ensures steps[k].partId in Placed(steps)
    decreases |steps|
  {
    if k < |steps| - 1 {
      PlacedMembers(steps[..|steps| - 1], k);
    }
  }

  /** No part is placed twice. */
  lemma {:induction false} GoodStepsDistinct(
    adjacency: Graph, grounded: set<string>, pathFeasible: (string, set<string>) -> bool,
    stability: set<string> -> Stability, steps: seq<PlanStep>, i: nat, j: nat)
    requires GoodSteps(adjacency, grounded, pathFeasible, stability, steps)
    requires i < j < |steps|
    ensures steps[i].partId != steps[j].partId
    decreases |steps|
  {
    var init := steps[..|steps| - 1];
    if j < |init| {
      GoodStepsDistinct(adjacency, grounded, pathFeasible, stability, init, i, j);
    } else {
      PlacedMembers(init, i);
    }
  }

  /** Over an assembly of constructed parts, every step passes the PlanStep constructor's checks. */
  lemma StepsValid(
    a: Assembly, adjacency: Graph, groundedPartIds: seq<string>,
    pathFeasible: (string, set<string>) -> bool, stability: set<string> -> Stability, k: nat)
    requires ValidAssembly(a)
    requires SolvePlan(a, adjacency, groundedPartIds, pathFeasible, stability).Ok?
    requires k < |SolvePlan(a, adjacency, groundedPartIds, pathFeasible, stability).value.steps|
    ensures ValidPlanStep(SolvePlan(a, adjacency, groundedPartIds, pathFeasible, stability).value.steps[k])
  {
    SolvePlanGood(a, adjacency, groundedPartIds, pathFeasible, stability);
    var plan := SolvePlan(a, adjacency, groundedPartIds, pathFeasible, stability).value;
    var grounded := Members(groundedPartIds);
    GoodStepsIndexed(adjacency, grounded, pathFeasible, stability, plan.steps, k);
    var id := plan.steps[k].partId;
    assert id in Ids(a.parts);
    var i :| 0 <= i < |a.parts| && Ids(a.parts)[i] == id;
    assert ValidPart(a.parts[i]);
  }
}
