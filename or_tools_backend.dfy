// The managed fallback of OrToolsBackend as the program runs it: a diagnostics
// object whose counters and lists the stages update, and the stages themselves as
// loops over the request. Each method is proved to compute its function in
// OrToolsSpec, about which OrToolsFacts proves what the backend promises.
module OrToolsBackend {
  import opened Common
  import IntSets
  import opened Motion
  import opened PlanningGraph
  import opened Constraints
  import opened Entities
  import opened SolverModels
  import opened DependencyGraphs
  import opened OrToolsSpec
  import opened OrToolsFacts

  /** SolverDiagnostics: the counters, the declared implications and forbidden parts, and the log lines of one solve. */
  class Diagnostics {
    var appliedConstraintCount: int
    var dependencyCount: int
    var currentBatch: int
    var objectiveValue: real
    var booleanSelections: int
    var implications: seq<Implication>
    /** ForbiddenParts: a set that is only added to, so it enumerates in insertion order. */
    var forbidden: seq<int>
    var logs: seq<string>

    constructor()
      ensures appliedConstraintCount == 0 && dependencyCount == 0 && currentBatch == 0 && objectiveValue == 0.0
      ensures booleanSelections == 0 && implications == [] && forbidden == [] && logs == []
    {
      appliedConstraintCount := 0;
      dependencyCount := 0;
      currentBatch := 0;
      objectiveValue := 0.0;
      booleanSelections := 0;
      implications := [];
      forbidden := [];
      logs := [];
    }

    /** Everything but the log lines. */
    function Counters(): (int, int, int, real, int, seq<Implication>, seq<int>)
      reads this
    {
      (appliedConstraintCount, dependencyCount, currentBatch, objectiveValue, booleanSelections, implications, forbidden)
    }

    /** Log: a fixed text while nothing is logged, the only line when there is one. */
    function Log(): (r: string)
      reads this
      ensures logs == [] ==> r == "Solver completed successfully."
      ensures |logs| == 1 ==> r == logs[0]
    {
      DiagnosticsLog(logs)
    }

    method LogSuccess(steps: int)
      modifies this
      ensures logs == old(logs) + [SuccessLine(steps)]
      ensures Counters() == old(Counters())
    {
      logs := logs + [SuccessLine(steps)];
    }

    method LogInfeasible(part: int, reason: string)
      modifies this
      ensures logs == old(logs) + [InfeasibleLine(part, reason)]
      ensures Counters() == old(Counters())
    {
      logs := logs + [InfeasibleLine(part, reason)];
    }

    /** ValidateImplications: the conflict of the first implication the order violates. */
    method ValidateImplications(order: seq<int>) returns (r: Option<Failure>)
      ensures r == OrToolsSpec.ValidateImplications(implications, order)
    {
      if |implications| == 0 {
        return None;
      }
      var positions: map<int, int> := map[];
      for i := 0 to |order|
        invariant forall x :: x in positions <==> x in order[..i]
        invariant forall x :: x in positions ==> PositionIn(order[..i], x) == Some(positions[x])
      {
        PrefixStep(order, i);
        positions := positions[order[i] := i];
      }
      PrefixWhole(order);
      for k := 0 to |implications|
        invariant forall j :: 0 <= j < k ==> !Violates(implications[j], order)
      {
        var imp := implications[k];
        if imp.source in positions && imp.trigger in positions && imp.target in positions {
          var sourcePos, triggerPos, targetPos := positions[imp.source], positions[imp.trigger], positions[imp.target];
          if sourcePos < triggerPos && targetPos > triggerPos {
            FirstViolationAt(implications, order, k);
            return Some(ConflictFailure("Implication violated: " + ImplicationText(imp)));
          }
        }
      }
      return None;
    }

    /** ValidateForbidden: the first forbidden part, in insertion order, that the order moves. */
    method ValidateForbidden(order: seq<int>) returns (r: Option<Failure>)
      ensures r == OrToolsSpec.ValidateForbidden(forbidden, order)
    {
      for k := 0 to |forbidden|
        invariant forall j :: 0 <= j < k ==> forbidden[j] !in order
      {
        if forbidden[k] in order {
          FirstForbiddenAt(forbidden, order, k);
          return Some(InfeasibleFailure("Part " + IntToString(forbidden[k]) + " is forbidden to move."));
        }
      }
      return None;
    }
  }

  lemma {:induction false} FirstViolationAt(imps: seq<Implication>, order: seq<int>, k: nat)
    requires k < |imps| && Violates(imps[k], order)
    requires forall j :: 0 <= j < k ==> !Violates(imps[j], order)
    ensures FirstViolation(imps, order) == Some(imps[k])
  {
    if k > 0 {
      FirstViolationAt(imps[1..], order, k - 1);
    }
  }

  lemma {:induction false} FirstForbiddenAt(forbidden: seq<int>, order: seq<int>, k: nat)
    requires k < |forbidden| && forbidden[k] in order
    requires forall j :: 0 <= j < k ==> forbidden[j] !in order
    ensures FirstForbidden(forbidden, order) == Some(forbidden[k])
  {
    if k > 0 {
      FirstForbiddenAt(forbidden[1..], order, k - 1);
    }
  }

  // ---------------------------------------------------------------------
  // The dependency graph
  // ---------------------------------------------------------------------

  /** The declarative state a diagnostics object and an adjacency stand for. */
  function DeclOf(adjacency: Adjacency, diag: Diagnostics): DeclState
    reads diag
  {
    DeclState(adjacency, diag.dependencyCount, diag.implications, diag.forbidden)
  }

  function Declared(r: Result<Adjacency, Failure>, diag: Diagnostics): Result<DeclState, Failure>
    reads diag
  {
    match r
    case Ok(adjacency) => Ok(DeclOf(adjacency, diag))
    case Err(f) => Err(f)
  }

  lemma {:induction false} ConstraintsErrExtends(st: DeclState, part: int, cs: seq<string>, j: nat, f: Failure)
    requires j <= |cs| && ApplyConstraints(st, part, cs[..j]) == Err(f)
    ensures ApplyConstraints(st, part, cs) == Err(f)
    decreases |cs| - j
  {
    if j < |cs| {
      PrefixStep(cs, j);
      ConstraintsErrExtends(st, part, cs, j + 1, f);
    } else {
      PrefixWhole(cs);
    }
  }

  lemma {:induction false} DeclarativeErrExtends(st: DeclState, entries: seq<(int, seq<string>)>, i: nat, f: Failure)
    requires i <= |entries| && ApplyDeclarative(st, entries[..i]) == Err(f)
    ensures ApplyDeclarative(st, entries) == Err(f)
    decreases |entries| - i
  {
    if i < |entries| {
      PrefixStep(entries, i);
      DeclarativeErrExtends(st, entries, i + 1, f);
    } else {
      PrefixWhole(entries);
    }
  }

  /** ApplyDeclarativeConstraints: each part's constraints in turn update the adjacency and the diagnostics. */
  method ApplyDeclarativeConstraints(entries: seq<(int, seq<string>)>, adjacency0: Adjacency, diag: Diagnostics)
    returns (r: Result<Adjacency, Failure>)
    modifies diag
    ensures Declared(r, diag) == ApplyDeclarative(old(DeclOf(adjacency0, diag)), entries)
    ensures diag.logs == old(diag.logs) && diag.appliedConstraintCount == old(diag.appliedConstraintCount)
    ensures diag.currentBatch == old(diag.currentBatch) && diag.booleanSelections == old(diag.booleanSelections)
    ensures diag.objectiveValue == old(diag.objectiveValue)
  {
    var adjacency := adjacency0;
    ghost var st0 := DeclOf(adjacency0, diag);
    for i := 0 to |entries|
      invariant ApplyDeclarative(st0, entries[..i]) == Ok(DeclOf(adjacency, diag))
      invariant diag.logs == old(diag.logs) && diag.appliedConstraintCount == old(diag.appliedConstraintCount)
      invariant diag.currentBatch == old(diag.currentBatch) && diag.booleanSelections == old(diag.booleanSelections)
      invariant diag.objectiveValue == old(diag.objectiveValue)
    {
      PrefixStep(entries, i);
      var next := ApplyPartConstraints(entries[i].0, entries[i].1, adjacency, diag);
      if next.Err? {
        DeclarativeErrExtends(st0, entries, i + 1, next.error);
        return Err(next.error);
      }
      adjacency := next.value;
    }
    PrefixWhole(entries);
    return Ok(adjacency);
  }

  /** The constraints of one part, in order; the first one that does not parse stops the pass. */
  method ApplyPartConstraints(part: int, constraints: seq<string>, adjacency0: Adjacency, diag: Diagnostics)
    returns (r: Result<Adjacency, Failure>)
    modifies diag
    ensures Declared(r, diag) == ApplyConstraints(old(DeclOf(adjacency0, diag)), part, constraints)
    ensures diag.logs == old(diag.logs) && diag.appliedConstraintCount == old(diag.appliedConstraintCount)
    ensures diag.currentBatch == old(diag.currentBatch) && diag.booleanSelections == old(diag.booleanSelections)
    ensures diag.objectiveValue == old(diag.objectiveValue)
  {
    var adjacency := adjacency0;
    ghost var before := DeclOf(adjacency0, diag);
    for j := 0 to |constraints|
      invariant ApplyConstraints(before, part, constraints[..j]) == Ok(DeclOf(adjacency, diag))
      invariant diag.logs == old(diag.logs) && diag.appliedConstraintCount == old(diag.appliedConstraintCount)
      invariant diag.currentBatch == old(diag.currentBatch) && diag.booleanSelections == old(diag.booleanSelections)
      invariant diag.objectiveValue == old(diag.objectiveValue)
    {
      PrefixStep(constraints, j);
      var d := ClassifyConstraint(part, constraints[j]);
      if d.Err? {
        ConstraintsErrExtends(before, part, constraints, j + 1, d.error);
        return Err(d.error);
      }
      adjacency := ApplyDirectiveTo(part, d.value, adjacency, diag);
    }
    PrefixWhole(constraints);
    return Ok(adjacency);
  }

  /** One directive: a dependency edge and its count, an implication, or a forbidden part. */
  method ApplyDirectiveTo(part: int, d: Directive, adjacency0: Adjacency, diag: Diagnostics) returns (adjacency: Adjacency)
    modifies diag
    ensures DeclOf(adjacency, diag) == ApplyDirective(old(DeclOf(adjacency0, diag)), part, d)
    ensures diag.logs == old(diag.logs) && diag.appliedConstraintCount == old(diag.appliedConstraintCount)
    ensures diag.currentBatch == old(diag.currentBatch) && diag.booleanSelections == old(diag.booleanSelections)
    ensures diag.objectiveValue == old(diag.objectiveValue)
  {
    adjacency := adjacency0;
    match d {
      case Requires(dependency) =>
        var successors := if dependency in adjacency then adjacency[dependency] else {};
        adjacency := adjacency[dependency := successors + {part}];
        diag.dependencyCount := diag.dependencyCount + 1;
      case Implies(imp) =>
        diag.implications := diag.implications + [imp];
      case Forbid =>
        if part !in diag.forbidden {
          diag.forbidden := diag.forbidden + [part];
        }
      case NoDirective =>
    }
  }

  /** The assembly's part ids are 32-bit signed integers. */
  predicate Int32Parts(a: AssemblyModel)
  {
    forall i :: 0 <= i < |a.parts| ==> IsInt32(a.parts[i].indexId)
  }

  /** The HashSet of part ids: the graph's in-degree keys, then every part of the assembly. */
  method CollectPartIds(request: Request) returns (partIds: set<int>)
    ensures partIds == GraphPartIds(request)
  {
    var graphModel := request.constraints.graph;
    var parts := request.assembly.parts;
    partIds := set e | e in graphModel.inDegrees :: e.0;
    for i := 0 to |parts|
      invariant partIds == (set e | e in graphModel.inDegrees :: e.0) + (set p | p in parts[..i] :: p.indexId)
    {
      assert parts[..i + 1] == parts[..i] + [parts[i]];
      partIds := partIds + {parts[i].indexId};
    }
    PrefixWhole(parts);
  }

  /** An empty successor set for every part id. */
  method InitialAdjacencyOf(partIds: set<int>) returns (adjacency: Adjacency)
    ensures adjacency == InitialAdjacency(partIds)
  {
    adjacency := map[];
    var rest := partIds;
    while rest != {}
      invariant rest <= partIds
      invariant adjacency.Keys == partIds - rest
      invariant forall u :: u in adjacency ==> adjacency[u] == {}
      decreases |rest|
    {
      IntSets.HasElement(rest);
      var part :| part in rest;
      adjacency := adjacency[part := {}];
      rest := rest - {part};
    }
    assert partIds - rest == partIds;
    forall u | u in adjacency
      ensures u in InitialAdjacency(partIds) && adjacency[u] == InitialAdjacency(partIds)[u]
    {
    }
    assert adjacency.Keys == InitialAdjacency(partIds).Keys;
  }

  /** BuildDependencyGraph, filling a fresh diagnostics object. */
  method BuildDependencyGraph(request: Request, diag: Diagnostics) returns (r: Result<Adjacency, Failure>)
    requires diag.dependencyCount == 0 && diag.implications == [] && diag.forbidden == []
    modifies diag
    ensures Declared(r, diag) == DependencyGraphOf(request)
    ensures diag.logs == old(diag.logs) && diag.appliedConstraintCount == old(diag.appliedConstraintCount)
    ensures diag.currentBatch == old(diag.currentBatch) && diag.booleanSelections == old(diag.booleanSelections)
    ensures diag.objectiveValue == old(diag.objectiveValue)
  {
    var graphModel := request.constraints.graph;
    var partIds := CollectPartIds(request);
    var adjacency := InitialAdjacencyOf(partIds);
    var edges := graphModel.allBlockingEdges;
    for k := 0 to |edges|
      invariant adjacency == AddBlockingEdges(InitialAdjacency(partIds), edges[..k])
      invariant diag.dependencyCount == k && diag.implications == [] && diag.forbidden == []
      invariant diag.logs == old(diag.logs) && diag.appliedConstraintCount == old(diag.appliedConstraintCount)
      invariant diag.currentBatch == old(diag.currentBatch) && diag.booleanSelections == old(diag.booleanSelections)
      invariant diag.objectiveValue == old(diag.objectiveValue)
    {
      PrefixStep(edges, k);
      var edge := edges[k];
      var successors := if edge.from in adjacency then adjacency[edge.from] else {};
      adjacency := adjacency[edge.from := successors + {edge.to}];
      diag.dependencyCount := diag.dependencyCount + 1;
    }
    PrefixWhole(edges);
    r := ApplyDeclarativeConstraints(request.constraints.partConstraints, adjacency, diag);
  }

  /**
   * DependencyGraph.ResolveOrder: Kahn's order, a conflict for a cycle, the applied
   * constraint count, then the two validations.
   */
  method ResolveOrder(adjacency: Adjacency, diag: Diagnostics) returns (r: Result<seq<int>, Failure>)
    modifies diag
    ensures r == OrToolsSpec.ResolveOrder(adjacency, diag.implications, diag.forbidden)
    ensures r.Ok? ==> diag.appliedConstraintCount == SumSizes(adjacency, adjacency.Keys)
    ensures diag.logs == old(diag.logs) && diag.dependencyCount == old(diag.dependencyCount)
    ensures diag.implications == old(diag.implications) && diag.forbidden == old(diag.forbidden)
    ensures diag.currentBatch == old(diag.currentBatch) && diag.booleanSelections == old(diag.booleanSelections)
    ensures diag.objectiveValue == old(diag.objectiveValue)
  {
    var order := TopologicalOrder(adjacency);
    if order.None? {
      return Err(ConflictFailure(CycleMessage));
    }
    var total := DependencyGraphs.EdgeCount(adjacency);
    diag.appliedConstraintCount := total;
    var violation := diag.ValidateImplications(order.value);
    if violation.Some? {
      return Err(violation.value);
    }
    violation := diag.ValidateForbidden(order.value);
    if violation.Some? {
      return Err(violation.value);
    }
    return Ok(order.value);
  }

  /**
   * ResolveOrder with the MILP weights, given the order the weighted loop
   * places the nodes in. The loop's cycle verdict does not depend on the
   * priority, so the unweighted loop decides it.
   */
  method ResolveWeightedOrder(adjacency: Adjacency, weighted: seq<int>, diag: Diagnostics) returns (r: Result<seq<int>, Failure>)
    modifies diag
    ensures r == OrToolsSpec.ResolveWeightedOrder(adjacency, diag.implications, diag.forbidden, weighted)
    ensures r.Ok? ==> diag.appliedConstraintCount == SumSizes(adjacency, adjacency.Keys)
    ensures diag.logs == old(diag.logs) && diag.dependencyCount == old(diag.dependencyCount)
    ensures diag.implications == old(diag.implications) && diag.forbidden == old(diag.forbidden)
    ensures diag.currentBatch == old(diag.currentBatch) && diag.booleanSelections == old(diag.booleanSelections)
    ensures diag.objectiveValue == old(diag.objectiveValue)
  {
    var least := TopologicalOrder(adjacency);
    if least.None? {
      return Err(ConflictFailure(CycleMessage));
    }
    var total := DependencyGraphs.EdgeCount(adjacency);
    diag.appliedConstraintCount := total;
    var violation := diag.ValidateImplications(weighted);
    if violation.Some? {
      return Err(violation.value);
    }
    violation := diag.ValidateForbidden(weighted);
    if violation.Some? {
      return Err(violation.value);
    }
    return Ok(weighted);
  }

  // ---------------------------------------------------------------------
  // SAT clauses and the assignment search
  // ---------------------------------------------------------------------

  lemma {:induction false} LiteralsErrExtends(tokens: seq<string>, k: nat, f: Failure)
    requires k <= |tokens| && ParseLiterals(tokens[..k]) == Err(f)
    ensures ParseLiterals(tokens) == Err(f)
    decreases |tokens| - k
  {
    if k < |tokens| {
      PrefixStep(tokens, k);
      LiteralsErrExtends(tokens, k + 1, f);
    } else {
      PrefixWhole(tokens);
    }
  }

  lemma {:induction false} ClausesErrExtends(texts: seq<string>, j: nat, f: Failure)
    requires j <= |texts| && ParseClauses(texts[..j]) == Err(f)
    ensures ParseClauses(texts) == Err(f)
    decreases |texts| - j
  {
    if j < |texts| {
      PrefixStep(texts, j);
      ClausesErrExtends(texts, j + 1, f);
    } else {
      PrefixWhole(texts);
    }
  }

  lemma {:induction false} ExtractErrExtends(groups: seq<(string, seq<string>)>, i: nat, f: Failure)
    requires i <= |groups| && ExtractClauses(groups[..i]) == Err(f)
    ensures ExtractClauses(groups) == Err(f)
    decreases |groups| - i
  {
    if i < |groups| {
      PrefixStep(groups, i);
      ExtractErrExtends(groups, i + 1, f);
    } else {
      PrefixWhole(groups);
    }
  }

  /** The literals of one clause string. */
  method ParseClauseText(text: string) returns (r: Result<seq<int>, Failure>)
    ensures r == ParseClause(text)
  {
    var tokens := SplitCharsRemoveEmpty(text, {',', ' '});
    var literals: seq<int> := [];
    for k := 0 to |tokens|
      invariant ParseLiterals(tokens[..k]) == Ok(literals)
    {
      PrefixStep(tokens, k);
      var literal := ParseLiteral(tokens[k]);
      match literal {
        case Err(f) =>
          LiteralsErrExtends(tokens, k + 1, f);
          return Err(f);
        case Ok(None) =>
        case Ok(Some(l)) =>
          literals := literals + [l];
      }
    }
    PrefixWhole(tokens);
    if |literals| == 0 {
      return Err(Fault("FormatException", EmptyClauseMessage));
    }
    return Ok(literals);
  }

  /** ExtractClauses: the clauses of every "sat" group, in order. */
  method ExtractClausesOf(c: ConstraintModel) returns (r: Result<seq<seq<int>>, Failure>)
    ensures r == ExtractClauses(c.groupConstraints)
  {
    var groups := c.groupConstraints;
    var clauses: seq<seq<int>> := [];
    for i := 0 to |groups|
      invariant ExtractClauses(groups[..i]) == Ok(clauses)
    {
      PrefixStep(groups, i);
      var entry := groups[i];
      if !EqualsIgnoreCase(entry.0, "sat") {
        continue;
      }
      ghost var base := clauses;
      var texts := entry.1;
      for j := 0 to |texts|
        invariant ParseClauses(texts[..j]).Ok? && clauses == base + ParseClauses(texts[..j]).value
      {
        PrefixStep(texts, j);
        var clause := ParseClauseText(texts[j]);
        if clause.Err? {
          ClausesErrExtends(texts, j + 1, clause.error);
          ExtractErrExtends(groups, i + 1, clause.error);
          return Err(clause.error);
        }
        AppendAssoc(base, ParseClauses(texts[..j]).value, [clause.value]);
        clauses := clauses + [clause.value];
      }
      PrefixWhole(texts);
    }
    PrefixWhole(groups);
    return Ok(clauses);
  }

  /** SatisfiesClauses: every clause has a literal that holds, scanning with early exits. */
  method SatisfiesClauses(clauses: seq<seq<int>>, assignment: set<int>) returns (b: bool)
    ensures b == Satisfies(clauses, assignment)
  {
    for c := 0 to |clauses|
      invariant forall k :: 0 <= k < c ==> ClauseHolds(clauses[k], assignment)
    {
      var clause := clauses[c];
      var satisfied := false;
      for i := 0 to |clause|
        invariant !satisfied ==> forall j :: 0 <= j < i ==> !LiteralHolds(clause[j], assignment)
        invariant satisfied ==> ClauseHolds(clause, assignment)
      {
        var literal := clause[i];
        if literal > 0 {
          if literal in assignment {
            satisfied := true;
            break;
          }
        } else {
          var encoded := Wrap32(-literal);
          if encoded !in assignment {
            satisfied := true;
            break;
          }
        }
      }
      if !satisfied {
        return false;
      }
    }
    return true;
  }

  lemma {:induction false} FirstDuplicateExtends(keys: seq<int>, i: nat, k: int)
    requires i <= |keys| && FirstDuplicate(keys[..i]) == Some(k)
    ensures FirstDuplicate(keys) == Some(k)
    decreases |keys| - i
  {
    if i < |keys| {
      PrefixStep(keys, i);
      FirstDuplicateExtends(keys, i + 1, k);
    } else {
      PrefixWhole(keys);
    }
  }

  lemma DecodeAdd(s: set<int>, e: int)
    ensures Decode(s + {e}) == Decode(s) + {Wrap32(e - 1)}
  {
  }

  /** The assignment of a mask, built bit by bit. */
  method MaskAssignment(ids: seq<int>, mask: nat) returns (assignment: set<int>)
    ensures assignment == Assignment(ids, mask)
  {
    assignment := {};
    for i := 0 to |ids|
      invariant assignment == set j | 0 <= j < i && MaskBit(mask, j) :: Wrap32(ids[j] + 1)
    {
      if MaskBit(mask, i) {
        assignment := assignment + {Wrap32(ids[i] + 1)};
      }
    }
  }

  /** encodedToActual: ToDictionary over the encoded ids, stopping at the first key met twice. */
  method EncodeIds(ids: seq<int>) returns (duplicate: Option<int>, encodedToActual: map<int, int>)
    requires forall i :: 0 <= i < |ids| ==> IsInt32(ids[i])
    ensures duplicate == FirstDuplicate(EncodedKeys(ids))
    ensures forall e :: e in encodedToActual ==> encodedToActual[e] == Wrap32(e - 1)
  {
    var keys := EncodedKeys(ids);
    encodedToActual := map[];
    for i := 0 to |ids|
      invariant FirstDuplicate(keys[..i]) == None
      invariant forall e :: e in encodedToActual <==> e in keys[..i]
      invariant forall e :: e in encodedToActual ==> encodedToActual[e] == Wrap32(e - 1)
    {
      var key := Wrap32(ids[i] + 1);
      assert keys[..i + 1] == keys[..i] + [key];
      if key in encodedToActual {
        PrefixStep(keys, i);
        FirstDuplicateExtends(keys, i + 1, key);
        return Some(key), encodedToActual;
      }
      EncodeDecode(ids[i]);
      encodedToActual := encodedToActual[key := ids[i]];
    }
    PrefixWhole(keys);
    return None, encodedToActual;
  }

  /** The loop over every mask below 1 << n, keeping the first largest satisfying assignment. */
  method SearchAssignments(clauses: seq<seq<int>>, ids: seq<int>) returns (s: SearchState)
    ensures s == SearchMasks(clauses, ids, MaskCount(|ids|))
  {
    var best: set<int> := {};
    var found := false;
    var maxState := ShiftOne(|ids|);
    var mask := 0;
    while mask < maxState
      invariant 0 <= mask <= MaskCount(|ids|)
      invariant SearchMasks(clauses, ids, mask) == SearchState(found, best)
      decreases maxState - mask
    {
      var assignment := MaskAssignment(ids, mask);
      var satisfied := SatisfiesClauses(clauses, assignment);
      if satisfied {
        found := true;
        if |assignment| > |best| {
          best := assignment;
        }
      }
      mask := mask + 1;
    }
    assert mask == MaskCount(|ids|);
    return SearchState(found, best);
  }

  /** The selected part ids: each encoded id of the best assignment looked up, or decoded as id - 1. */
  method DecodeSelection(best: set<int>, encodedToActual: map<int, int>) returns (selected: set<int>)
    requires forall e :: e in encodedToActual ==> encodedToActual[e] == Wrap32(e - 1)
    ensures selected == Decode(best)
  {
    selected := {};
    var rest := best;
    while rest != {}
      invariant rest <= best
      invariant selected == Decode(best - rest)
      decreases |rest|
    {
      IntSets.HasElement(rest);
      var encoded :| encoded in rest;
      var actual := if encoded in encodedToActual then encodedToActual[encoded] else Wrap32(encoded - 1);
      DecodeAdd(best - rest, encoded);
      assert best - (rest - {encoded}) == (best - rest) + {encoded};
      selected := selected + {actual};
      rest := rest - {encoded};
    }
    assert best - rest == best;
  }

  /**
   * SolveBooleanAssignment: every part without clauses; otherwise the encoded ids
   * go into a dictionary, every mask below 1 << n is tried, and the first largest
   * satisfying assignment is decoded.
   */
  method SolveBooleanAssignment(a: AssemblyModel, clauses: seq<seq<int>>, diag: Diagnostics) returns (r: Result<set<int>, Failure>)
    requires Int32Parts(a)
    modifies diag
    ensures r == BooleanAssignment(PartIds(a), clauses)
    ensures r.Ok? && |clauses| > 0 ==>
              diag.booleanSelections == |SearchMasks(clauses, PartIds(a), MaskCount(|a.parts|)).best|
    ensures diag.logs == old(diag.logs) && diag.dependencyCount == old(diag.dependencyCount)
    ensures diag.implications == old(diag.implications) && diag.forbidden == old(diag.forbidden)
    ensures diag.currentBatch == old(diag.currentBatch) && diag.appliedConstraintCount == old(diag.appliedConstraintCount)
    ensures diag.objectiveValue == old(diag.objectiveValue)
  {
    var ids := PartIds(a);
    if |clauses| == 0 {
      return Ok(set i | 0 <= i < |ids| :: ids[i]);
    }
    var duplicate, encodedToActual := EncodeIds(ids);
    if duplicate.Some? {
      return Err(Fault("ArgumentException", "An item with the same key has already been added. Key: " + IntToString(duplicate.value)));
    }
    var search := SearchAssignments(clauses, ids);
    if !search.found {
      return Err(ConflictFailure("SAT model is unsatisfiable."));
    }
    diag.booleanSelections := |search.best|;
    var selected := DecodeSelection(search.best, encodedToActual);
    return Ok(selected);
  }

  // ---------------------------------------------------------------------
  // Plan steps and motion groups
  // ---------------------------------------------------------------------

  lemma {:induction false} FirstFeasibleAt(m: MotionModel, part: int, rays: seq<Vec3>, k: nat)
    requires k < |rays| && IsMotionFeasible(m, part, rays[k])
    requires forall j :: 0 <= j < k ==> !IsMotionFeasible(m, part, rays[j])
    ensures FirstFeasible(m, part, rays) == Some(rays[k])
  {
    if k > 0 {
      FirstFeasibleAt(m, part, rays[1..], k - 1);
    }
  }

  /** TrySelectMotionVector: the first feasible candidate ray, else +Z when feasible, else the reason. */
  method TrySelectMotionVector(part: int, m: MotionModel) returns (r: Result<Vec3, string>)
    ensures r == SelectMotion(m, part)
  {
    var candidates := GetPartMotionRays(m, part);
    for i := 0 to |candidates|
      invariant forall j :: 0 <= j < i ==> !IsMotionFeasible(m, part, candidates[j])
    {
      if IsMotionFeasible(m, part, candidates[i]) {
        FirstFeasibleAt(m, part, candidates, i);
        return Ok(candidates[i]);
      }
    }
    if IsMotionFeasible(m, part, ZAxis) {
      return Ok(ZAxis);
    }
    return Err("No feasible motion vector for part " + IntToString(part) + ".");
  }

  lemma {:induction false} PlanErrExtends(order: seq<int>, a: AssemblyModel, m: MotionModel, selected: Option<set<int>>,
                                          batch: int, i: nat, e: PlanFailure)
    requires i <= |order| && PlanSteps(order[..i], a, m, selected, batch) == Err(e)
    ensures PlanSteps(order, a, m, selected, batch) == Err(e)
    decreases |order| - i
  {
    if i < |order| {
      PrefixStep(order, i);
      PlanErrExtends(order, a, m, selected, batch, i + 1, e);
    } else {
      PrefixWhole(order);
    }
  }

  /** What BuildPlanSteps logs: the success line, the reason of a part without motion, or nothing. */
  function PlanLog(r: Result<PlanState, PlanFailure>): seq<string>
  {
    match r
    case Ok(plan) => [SuccessLine(|plan.steps|)]
    case Err(MissingPart(_)) => []
    case Err(NoMotion(p, reason)) => [InfeasibleLine(p, reason)]
  }

  function PlanResult(r: Result<PlanState, PlanFailure>): Result<PlanState, Failure>
  {
    match r
    case Ok(plan) => Ok(plan)
    case Err(e) => Err(PlanFailureOf(e))
  }

  /** BuildPlanSteps: one step per planned part of the order, in the diagnostics' current batch. A part without a
      feasible motion is logged before the failure is raised. */
  method BuildPlanSteps(order: seq<int>, a: AssemblyModel, m: MotionModel, diag: Diagnostics, selected: Option<set<int>>)
    returns (r: Result<PlanState, Failure>)
    modifies diag
    ensures r == PlanResult(PlanSteps(order, a, m, selected, old(diag.currentBatch)))
    ensures diag.logs == old(diag.logs) + PlanLog(PlanSteps(order, a, m, selected, old(diag.currentBatch)))
    ensures diag.Counters() == old(diag.Counters())
  {
    var plan := PlanLoop(order, a, m, selected, diag.currentBatch);
    match plan
    case Ok(st) =>
      diag.LogSuccess(|st.steps|);
      return Ok(st);
    case Err(MissingPart(partIndex)) =>
      return Err(InfeasibleFailure("Part " + IntToString(partIndex) + " is missing from assembly snapshot."));
    case Err(NoMotion(partIndex, reason)) =>
      diag.LogInfeasible(partIndex, reason);
      return Err(InfeasibleFailure(reason));
  }

  /** The loop of BuildPlanSteps: the steps in order, or the first part that cannot be planned. */
  method PlanLoop(order: seq<int>, a: AssemblyModel, m: MotionModel, selected: Option<set<int>>, batch: int)
    returns (r: Result<PlanState, PlanFailure>)
    ensures r == PlanSteps(order, a, m, selected, batch)
  {
    var steps: seq<Step> := [];
    var motions: seq<Vec3> := [];
    for i := 0 to |order|
      invariant PlanSteps(order[..i], a, m, selected, batch) == Ok(PlanState(steps, motions))
    {
      PrefixStep(order, i);
      var partIndex := order[i];
      if selected.Some? && partIndex !in selected.value {
        continue;
      }
      var position := IndexToPosition(a, partIndex);
      if position.None? {
        PlanErrExtends(order, a, m, selected, batch, i + 1, MissingPart(partIndex));
        return Err(MissingPart(partIndex));
      }
      var part := a.parts[position.value];
      var direction := TrySelectMotionVector(partIndex, m);
      if direction.Err? {
        PlanErrExtends(order, a, m, selected, batch, i + 1, NoMotion(partIndex, direction.error));
        return Err(NoMotion(partIndex, direction.error));
      }
      var step := Step(|steps|, part, direction.value, false, batch);
      steps := steps + [step];
      motions := motions + [direction.value];
    }
    PrefixWhole(order);
    return Ok(PlanState(steps, motions));
  }

  lemma {:induction false} GroupsErrExtends(keys: seq<string>, selected: Option<set<int>>, i: nat, f: Failure)
    requires i <= |keys| && MotionGroups(keys[..i], selected) == Err(f)
    ensures MotionGroups(keys, selected) == Err(f)
    decreases |keys| - i
  {
    if i < |keys| {
      PrefixStep(keys, i);
      GroupsErrExtends(keys, selected, i + 1, f);
    } else {
      PrefixWhole(keys);
    }
  }

  /** ExtractMotionGroups: the parsed group keys, skipping groups that leave the selection. */
  method ExtractMotionGroups(m: MotionModel, selected: Option<set<int>>) returns (r: Result<seq<seq<int>>, Failure>)
    ensures r == MotionGroups(GetAllGroupKeys(m), selected)
  {
    var keys := GetAllGroupKeys(m);
    var groups: seq<seq<int>> := [];
    for i := 0 to |keys|
      invariant MotionGroups(keys[..i], selected) == Ok(groups)
    {
      PrefixStep(keys, i);
      var indices := ParseGroupKey(keys[i]);
      if indices.Err? {
        GroupsErrExtends(keys, selected, i + 1, Fault(indices.error, ParseMessage(indices.error)));
        return Err(Fault(indices.error, ParseMessage(indices.error)));
      }
      if LeavesSelection(indices.value, selected) {
        continue;
      }
      groups := groups + [indices.value];
    }
    PrefixWhole(keys);
    return Ok(groups);
  }

  // ---------------------------------------------------------------------
  // The solve paths
  // ---------------------------------------------------------------------

  /**
   * BuildTopologicalOrder: a fresh diagnostics object, the dependency graph, and its
   * resolved order.
   */
  method BuildTopologicalOrder(request: Request) returns (r: Result<seq<int>, Failure>, diag: Diagnostics)
    ensures fresh(diag) && diag.logs == [] && diag.currentBatch == 0
    ensures DependencyGraphOf(request).Err? ==> r == Err(DependencyGraphOf(request).error)
    ensures DependencyGraphOf(request).Ok? ==>
              var g := DependencyGraphOf(request).value;
              && r == OrToolsSpec.ResolveOrder(g.adjacency, g.implications, g.forbidden)
              && diag.dependencyCount == g.dependencyCount
              && (r.Ok? ==> diag.appliedConstraintCount == SumSizes(g.adjacency, g.adjacency.Keys))
  {
    diag := new Diagnostics();
    var graph := BuildDependencyGraph(request, diag);
    if graph.Err? {
      return Err(graph.error), diag;
    }
    r := ResolveOrder(graph.value, diag);
  }

  /** The tail of every path: the plan steps, the motion groups, the step count and the result. */
  method FinishPlan(request: Request, order: seq<int>, selected: Option<set<int>>, diag: Diagnostics,
                    metadata0: map<string, Meta>, extra: map<string, Meta>)
    returns (metadata: map<string, Meta>, r: Result<BackendResult, Failure>)
    requires diag.logs == [] && diag.currentBatch == 0
    modifies diag
    ensures Staged(metadata, r) == Finish(request, order, selected, metadata0, extra)
    ensures diag.Counters() == old(diag.Counters())
  {
    metadata := metadata0;
    var plan := BuildPlanSteps(order, request.assembly, request.constraints.motion, diag, selected);
    if plan.Err? {
      return metadata, Err(plan.error);
    }
    var groups := ExtractMotionGroups(request.constraints.motion, selected);
    if groups.Err? {
      return metadata, Err(groups.error);
    }
    metadata := (metadata + extra)["stepCount" := MetaInt(|plan.value.steps|)];
    r := Ok(BackendResult(Feasible, plan.value.steps, plan.value.motions, groups.value, diag.Log(), metadata));
  }

  /** SolveCsp, on the metadata dictionary Solve passes in. */
  method SolveCsp(request: Request, metadata0: map<string, Meta>) returns (metadata: map<string, Meta>, r: Result<BackendResult, Failure>)
    ensures Staged(metadata, r) == OrToolsSpec.SolveCsp(request, metadata0)
  {
    metadata := metadata0["mode" := MetaText("CSP")];
    var order, diag := BuildTopologicalOrder(request);
    if order.Err? {
      return metadata, Err(order.error);
    }
    metadata := metadata["expandedConstraints" := MetaInt(diag.appliedConstraintCount)];
    metadata, r := FinishPlan(request, order.value, None, diag, metadata, map[]);
    if r.Ok? {
      metadata := metadata["dependencyCount" := MetaInt(diag.dependencyCount)];
      r := Ok(r.value.(metadata := metadata));
    }
  }

  /** SolveMilp, with ResolveMilpOrder's weighted order and objective given. */
  method SolveMilp(request: Request, metadata0: map<string, Meta>, milpOrder: seq<int>, objective: real)
    returns (metadata: map<string, Meta>, r: Result<BackendResult, Failure>)
    ensures Staged(metadata, r) == OrToolsSpec.SolveMilp(request, metadata0, milpOrder, objective)
  {
    metadata := metadata0["mode" := MetaText("MILP")];
    var diag := new Diagnostics();
    var graph := BuildDependencyGraph(request, diag);
    if graph.Err? {
      return metadata, Err(graph.error);
    }
    var order := ResolveWeightedOrder(graph.value, milpOrder, diag);
    if order.Err? {
      return metadata, Err(order.error);
    }
    diag.objectiveValue := objective;
    metadata := metadata["objective" := MetaReal(diag.objectiveValue)];
    metadata, r := FinishPlan(request, order.value, None, diag, metadata, map[]);
  }

  /** SolveSat: the assignment, the filtered graph's order, then the steps of the selected parts. */
  method SolveSat(request: Request, metadata0: map<string, Meta>) returns (metadata: map<string, Meta>, r: Result<BackendResult, Failure>)
    requires Int32Parts(request.assembly)
    ensures Staged(metadata, r) == OrToolsSpec.SolveSat(request, metadata0)
  {
    metadata := metadata0["mode" := MetaText("SAT")];
    var diag := new Diagnostics();
    var graph := BuildDependencyGraph(request, diag);
    if graph.Err? {
      return metadata, Err(graph.error);
    }
    var clauses := ExtractClausesOf(request.constraints);
    if clauses.Err? {
      return metadata, Err(clauses.error);
    }
    metadata := metadata["cnfClauses" := MetaInt(|clauses.value|)];
    var selected := SolveBooleanAssignment(request.assembly, clauses.value, diag);
    if selected.Err? {
      return metadata, Err(selected.error);
    }
    if |selected.value| == 0 {
      return metadata, Err(InfeasibleFailure("SAT assignment disabled all parts."));
    }
    var filtered := Filter(graph.value, selected.value);
    var order := ResolveOrder(filtered, diag);
    if order.Err? {
      return metadata, Err(order.error);
    }
    metadata, r := FinishPlan(request, order.value, Some(selected.value), diag, metadata,
                              map["selectedParts" := MetaText(SelectedText(selected.value))]);
  }

  /** Solve: the path by the upper-cased solver id, and every stage's exception as an outcome. */
  method Solve(request: Option<Request>, milpOrder: seq<int>, objective: real) returns (r: Result<BackendResult, Exception>)
    requires request.Some? ==> Int32Parts(request.value.assembly)
    ensures r == OrToolsSpec.Solve(request, milpOrder, objective)
  {
    if request.None? {
      return Err(ArgumentNullException("request"));
    }
    var req := request.value;
    var metadata := BaseMetadata(req);
    var id := if req.solverId.Some? then Some(UpperAscii(req.solverId.value)) else None;
    var meta, result;
    if id == Some("MILP") {
      meta, result := SolveMilp(req, metadata, milpOrder, objective);
    } else if id == Some("SAT") {
      meta, result := SolveSat(req, metadata);
    } else {
      meta, result := SolveCsp(req, metadata);
    }
    match result {
      case Ok(res) => r := Ok(res);
      case Err(f) => r := Ok(FailureResult(f, meta));
    }
  }
}
