// The managed fallback of the OR-Tools solver backend, as functions: parsing of
// the textual constraints, the dependency graph they build, the SAT clauses and
// their brute-force maximum assignment, the plan steps, and the mapping of each
// stage's exception to a solver outcome. The methods of OrToolsBackend are
// proved to compute exactly these functions.
module OrToolsSpec {
  import opened Common
  import IntSets
  import opened Motion
  import opened PlanningGraph
  import opened Constraints
  import opened Entities
  import opened SolverModels
  import opened DependencyGraphs

  datatype Outcome = Feasible | Infeasible | Conflict | Error

  /**
   * What a stage throws: the backend's ConflictException or InfeasibleException,
   * or any other exception, by its type name and message.
   */
  datatype Failure =
    | ConflictFailure(message: string)
    | InfeasibleFailure(message: string)
    | Fault(kind: string, message: string)

  /** BooleanImplication: once the trigger is placed, the source must not precede it while the target follows it. */
  datatype Implication = Implication(source: int, trigger: int, target: int)

  /** BooleanImplication.ToString(). */
  function ImplicationText(imp: Implication): string
  {
    IntToString(imp.source) + " -> (" + IntToString(imp.trigger) + " => " + IntToString(imp.target) + ")"
  }

  /** The part list of the read-only assembly model. */
  datatype AssemblyModel = AssemblyModel(parts: seq<Part>)

  /** What the backend reads of a request; the contact model and the solver options are not read. */
  datatype Request = Request(solverId: Option<string>, assembly: AssemblyModel, constraints: ConstraintModel)

  datatype BackendResult = BackendResult(
    outcome: Outcome,
    steps: seq<Step>,
    motions: seq<Vec3>,
    groups: seq<seq<int>>,
    log: string,
    metadata: map<string, Meta>)

  // ---------------------------------------------------------------------
  // The assembly snapshot
  // ---------------------------------------------------------------------

  /** IndexToPosition: the constructor writes every position in turn, so the last part with the id wins. */
  function IndexToPosition(a: AssemblyModel, id: int): (r: Option<nat>)
    ensures r.Some? ==> r.value < |a.parts| && a.parts[r.value].indexId == id
    ensures r.Some? ==> forall j :: r.value < j < |a.parts| ==> a.parts[j].indexId != id
    ensures r.None? <==> forall j :: 0 <= j < |a.parts| ==> a.parts[j].indexId != id
  {
    LastPosition(a.parts, id)
  }

  function LastPosition(parts: seq<Part>, id: int): (r: Option<nat>)
    ensures r.Some? ==> r.value < |parts| && parts[r.value].indexId == id
    ensures r.Some? ==> forall j :: r.value < j < |parts| ==> parts[j].indexId != id
    ensures r.None? <==> forall j :: 0 <= j < |parts| ==> parts[j].indexId != id
    decreases |parts|
  {
    if parts == [] then None
    else if parts[|parts| - 1].indexId == id then Some(|parts| - 1)
    else LastPosition(parts[..|parts| - 1], id)
  }

  /** assembly.Parts.Select(p => p.IndexId). */
  function PartIds(a: AssemblyModel): (r: seq<int>)
    ensures |r| == |a.parts| && forall i :: 0 <= i < |r| ==> r[i] == a.parts[i].indexId
  {
    seq(|a.parts|, i requires 0 <= i < |a.parts| => a.parts[i].indexId)
  }

  // ---------------------------------------------------------------------
  // Declarative part constraints
  // ---------------------------------------------------------------------

  const RequiresPrefix: string := "requires:"
  const ImpliesPrefix: string := "implies:"

  /** ParseImplication: "implies:trigger->target", split on "->" with empty pieces removed. */
  function ParseImplication(part: int, definition: string): (r: Result<Implication, Failure>)
    requires |definition| >= |ImpliesPrefix|
    ensures r.Ok? ==> r.value.source == part
    ensures r.Err? ==> r.error.Fault? && r.error.kind == "FormatException"
  {
    var pieces := SplitStringRemoveEmpty(definition[|ImpliesPrefix|..], "->");
    if |pieces| != 2 then Err(Fault("FormatException", "Invalid implication constraint '" + definition + "'."))
    else match ParseInt32(pieces[0])
      case None => Err(Fault("FormatException", "Invalid trigger index in '" + definition + "'."))
      case Some(trigger) =>
        match ParseInt32(pieces[1])
        case None => Err(Fault("FormatException", "Invalid target index in '" + definition + "'."))
        case Some(target) => Ok(Implication(part, trigger, target))
  }

  /** What one constraint string of a part asks for. */
  datatype Directive = Requires(dependency: int) | Implies(implication: Implication) | Forbid | NoDirective

  /**
   * One constraint of a part: blank strings are skipped, the rest is trimmed and
   * matched case-insensitively against "requires:", "implies:" and "forbid", and
   * anything else is ignored. A requires payload that is not an integer is ignored.
   */
  function ClassifyConstraint(part: int, constraint: string): (r: Result<Directive, Failure>)
    ensures IsBlank(constraint) ==> r == Ok(NoDirective)
    ensures r.Ok? && r.value.Implies? ==> r.value.implication.source == part
    ensures r.Err? ==> r.error.Fault? && r.error.kind == "FormatException"
  {
    if IsBlank(constraint) then Ok(NoDirective)
    else
      var trimmed := Trim(constraint);
      if StartsWithIgnoreCase(trimmed, RequiresPrefix) then
        match ParseInt32(trimmed[|RequiresPrefix|..])
        case Some(dependency) => Ok(Requires(dependency))
        case None => Ok(NoDirective)
      else if StartsWithIgnoreCase(trimmed, ImpliesPrefix) then
        match ParseImplication(part, trimmed)
        case Err(f) => Err(f)
        case Ok(imp) => Ok(Implies(imp))
      else if EqualsIgnoreCase(trimmed, "forbid") then Ok(Forbid)
      else Ok(NoDirective)
  }

  /** The adjacency and the diagnostics fields that the graph construction fills. */
  datatype DeclState = DeclState(adjacency: Adjacency, dependencyCount: int, implications: seq<Implication>, forbidden: seq<int>)

  /** adjacency.GetOrCreate(u).Add(v). */
  function AddEdge(adj: Adjacency, u: int, v: int): (r: Adjacency)
    ensures r.Keys == adj.Keys + {u}
    ensures forall a, b :: Edge(r, a, b) <==> Edge(adj, a, b) || (a == u && b == v)
  {
    adj[u := Successors(adj, u) + {v}]
  }

  /** The effect of one directive of a part. ForbiddenParts is a set: a part is added once. */
  function ApplyDirective(st: DeclState, part: int, d: Directive): DeclState
  {
    match d
    case Requires(dependency) =>
      st.(adjacency := AddEdge(st.adjacency, dependency, part), dependencyCount := st.dependencyCount + 1)
    case Implies(imp) => st.(implications := st.implications + [imp])
    case Forbid => st.(forbidden := if part in st.forbidden then st.forbidden else st.forbidden + [part])
    case NoDirective => st
  }

  /** The constraints of one part, in order; the first FormatException stops everything. */
  function ApplyConstraints(st: DeclState, part: int, cs: seq<string>): Result<DeclState, Failure>
    decreases |cs|
  {
    if cs == [] then Ok(st)
    else
      match ApplyConstraints(st, part, cs[..|cs| - 1])
      case Err(f) => Err(f)
      case Ok(s) =>
        match ClassifyConstraint(part, cs[|cs| - 1])
        case Err(f) => Err(f)
        case Ok(d) => Ok(ApplyDirective(s, part, d))
  }

  /** ApplyDeclarativeConstraints: every part's constraint list, in the dictionary's order. */
  function ApplyDeclarative(st: DeclState, entries: seq<(int, seq<string>)>): Result<DeclState, Failure>
    decreases |entries|
  {
    if entries == [] then Ok(st)
    else
      match ApplyDeclarative(st, entries[..|entries| - 1])
      case Err(f) => Err(f)
      case Ok(s) => ApplyConstraints(s, entries[|entries| - 1].0, entries[|entries| - 1].1)
  }

  // ---------------------------------------------------------------------
  // The dependency graph
  // ---------------------------------------------------------------------

  /** The part ids of the graph: the in-degree keys and the assembly's index ids. */
  function GraphPartIds(r: Request): set<int>
  {
    (set e | e in r.constraints.graph.inDegrees :: e.0) + (set p | p in r.assembly.parts :: p.indexId)
  }

  /** Every part id with an empty neighbour set. */
  function InitialAdjacency(ids: set<int>): (adj: Adjacency)
    ensures adj.Keys == ids && forall u :: u in adj ==> adj[u] == {}
  {
    map u | u in ids :: {}
  }

  /** The blocking edges From -> To, in order. */
  function AddBlockingEdges(adj: Adjacency, edges: seq<BlockingEdge>): Adjacency
    decreases |edges|
  {
    if edges == [] then adj
    else AddEdge(AddBlockingEdges(adj, edges[..|edges| - 1]), edges[|edges| - 1].from, edges[|edges| - 1].to)
  }

  /** BuildDependencyGraph: the part ids, the blocking edges (each counted as a dependency), then the declarative constraints. */
  function DependencyGraphOf(r: Request): Result<DeclState, Failure>
  {
    var edges := r.constraints.graph.allBlockingEdges;
    var base := AddBlockingEdges(InitialAdjacency(GraphPartIds(r)), edges);
    ApplyDeclarative(DeclState(base, |edges|, [], []), r.constraints.partConstraints)
  }

  // ---------------------------------------------------------------------
  // Validation of an order
  // ---------------------------------------------------------------------

  /** positions[order[i]] = i for every i: the last position of x. */
  function PositionIn(order: seq<int>, x: int): (r: Option<nat>)
    ensures r.Some? ==> r.value < |order| && order[r.value] == x
    ensures r.None? <==> x !in order
    decreases |order|
  {
    if order == [] then None
    else if order[|order| - 1] == x then Some(|order| - 1)
    else PositionIn(order[..|order| - 1], x)
  }

  /** The source comes before the trigger while the target comes after it; implications naming an unplaced part are skipped. */
  predicate Violates(imp: Implication, order: seq<int>)
  {
    var s := PositionIn(order, imp.source);
    var t := PositionIn(order, imp.trigger);
    var g := PositionIn(order, imp.target);
    s.Some? && t.Some? && g.Some? && s.value < t.value && g.value > t.value
  }

  /** The first implication, in the order recorded, that the order violates. */
  function FirstViolation(imps: seq<Implication>, order: seq<int>): (r: Option<Implication>)
    ensures r.None? <==> forall i :: 0 <= i < |imps| ==> !Violates(imps[i], order)
    ensures r.Some? ==> exists i :: (0 <= i < |imps| && imps[i] == r.value && Violates(r.value, order)
                                     && forall j :: 0 <= j < i ==> !Violates(imps[j], order))
  {
    if imps == [] then None
    else if Violates(imps[0], order) then Some(imps[0])
    else
      var r := FirstViolation(imps[1..], order);
      if r.Some? then
        var i :| 0 <= i < |imps[1..]| && imps[1..][i] == r.value && Violates(r.value, order)
                && forall j :: 0 <= j < i ==> !Violates(imps[1..][j], order);
        assert imps[i + 1] == r.value;
        r
      else r
  }

  /** ValidateImplications. */
  function ValidateImplications(imps: seq<Implication>, order: seq<int>): Option<Failure>
  {
    match FirstViolation(imps, order)
    case None => None
    case Some(imp) => Some(ConflictFailure("Implication violated: " + ImplicationText(imp)))
  }

  /** The first forbidden part, in insertion order, that the order moves. */
  function FirstForbidden(forbidden: seq<int>, order: seq<int>): (r: Option<int>)
    ensures r.None? <==> forall i :: 0 <= i < |forbidden| ==> forbidden[i] !in order
    ensures r.Some? ==> r.value in forbidden && r.value in order
  {
    if forbidden == [] then None
    else if forbidden[0] in order then Some(forbidden[0])
    else FirstForbidden(forbidden[1..], order)
  }

  /** ValidateForbidden. */
  function ValidateForbidden(forbidden: seq<int>, order: seq<int>): Option<Failure>
  {
    match FirstForbidden(forbidden, order)
    case None => None
    case Some(f) => Some(InfeasibleFailure("Part " + IntToString(f) + " is forbidden to move."))
  }

  const CycleMessage: string := "Dependency graph contains a cycle."

  /**
   * DependencyGraph.ResolveOrder without weights: the smallest topological order,
   * a conflict for a cyclic graph, then the implication and forbidden-part checks.
   */
  ghost function ResolveOrder(adj: Adjacency, imps: seq<Implication>, forbidden: seq<int>): Result<seq<int>, Failure>
  {
    if !HasTopoOrder(adj) then Err(ConflictFailure(CycleMessage))
    else
      var order := LeastTopoOrder(adj);
      match ValidateImplications(imps, order)
      case Some(f) => Err(f)
      case None =>
        match ValidateForbidden(forbidden, order)
        case Some(f) => Err(f)
        case None => Ok(order)
  }

  // ---------------------------------------------------------------------
  // SAT clauses
  // ---------------------------------------------------------------------

  /**
   * One SAT literal: "Pi" is i + 1 and "-Pi" is -(i + 1) (both unchecked 32-bit
   * arithmetic), with an unparsable index ignored; a bare integer is kept; anything
   * else is a FormatException.
   */
  function ParseLiteral(token: string): (r: Result<Option<int>, Failure>)
    ensures r.Err? ==> r.error == Fault("FormatException", "Invalid SAT literal '" + token + "'.")
  {
    if StartsWithIgnoreCase(token, "P") then
      match ParseInt32(token[1..])
      case Some(i) => Ok(Some(Wrap32(i + 1)))
      case None => Ok(None)
    else if StartsWithIgnoreCase(token, "-P") then
      match ParseInt32(token[2..])
      case Some(i) => Ok(Some(Wrap32(-Wrap32(i + 1))))
      case None => Ok(None)
    else
      match ParseInt32(token)
      case Some(raw) => Ok(Some(raw))
      case None => Err(Fault("FormatException", "Invalid SAT literal '" + token + "'."))
  }

  /** The literals of a token list, in order; the first bad token stops the parse. */
  function ParseLiterals(tokens: seq<string>): Result<seq<int>, Failure>
    decreases |tokens|
  {
    if tokens == [] then Ok([])
    else
      match ParseLiterals(tokens[..|tokens| - 1])
      case Err(f) => Err(f)
      case Ok(lits) =>
        match ParseLiteral(tokens[|tokens| - 1])
        case Err(f) => Err(f)
        case Ok(None) => Ok(lits)
        case Ok(Some(l)) => Ok(lits + [l])
  }

  const EmptyClauseMessage: string := "SAT clause must contain at least one literal."

  /** One clause string: tokens split on ',' and ' ', and at least one literal. */
  function ParseClause(text: string): (r: Result<seq<int>, Failure>)
    ensures r.Ok? ==> |r.value| > 0
  {
    match ParseLiterals(SplitCharsRemoveEmpty(text, {',', ' '}))
    case Err(f) => Err(f)
    case Ok(lits) => if lits == [] then Err(Fault("FormatException", EmptyClauseMessage)) else Ok(lits)
  }

  /** The clauses of a list of clause strings, in order. */
  function ParseClauses(texts: seq<string>): Result<seq<seq<int>>, Failure>
    decreases |texts|
  {
    if texts == [] then Ok([])
    else
      match ParseClauses(texts[..|texts| - 1])
      case Err(f) => Err(f)
      case Ok(cs) =>
        match ParseClause(texts[|texts| - 1])
        case Err(f) => Err(f)
        case Ok(c) => Ok(cs + [c])
  }

  /** ExtractClauses: the clause strings of every group whose key is "sat", ignoring case. */
  function ExtractClauses(groups: seq<(string, seq<string>)>): Result<seq<seq<int>>, Failure>
    decreases |groups|
  {
    if groups == [] then Ok([])
    else
      match ExtractClauses(groups[..|groups| - 1])
      case Err(f) => Err(f)
      case Ok(cs) =>
        var entry := groups[|groups| - 1];
        if !EqualsIgnoreCase(entry.0, "sat") then Ok(cs)
        else
          match ParseClauses(entry.1)
          case Err(f) => Err(f)
          case Ok(more) => Ok(cs + more)
  }

  // ---------------------------------------------------------------------
  // The brute-force SAT assignment
  // ---------------------------------------------------------------------

  /** A positive literal holds when it is assigned, a negative or zero one when its negation is not. */
  predicate LiteralHolds(lit: int, assignment: set<int>)
  {
    if lit > 0 then lit in assignment else Wrap32(-lit) !in assignment
  }

  predicate ClauseHolds(clause: seq<int>, assignment: set<int>)
  {
    exists i :: 0 <= i < |clause| && LiteralHolds(clause[i], assignment)
  }

  /** SatisfiesClauses. */
  predicate Satisfies(clauses: seq<seq<int>>, assignment: set<int>)
  {
    forall c :: 0 <= c < |clauses| ==> ClauseHolds(clauses[c], assignment)
  }

  function Pow2(k: nat): (r: nat)
    ensures r >= 1
  {
    if k == 0 then 1 else 2 * Pow2(k - 1)
  }

  /** C#'s 1 << k: the shift count is taken modulo 32 and bit 31 is the sign. */
  function ShiftOne(k: nat): int
  {
    Wrap32(Pow2(k % 32))
  }

  /** (mask & (1 << i)) != 0 for a non-negative 32-bit mask. */
  predicate MaskBit(mask: nat, i: nat)
  {
    i % 32 != 31 && (mask / Pow2(i % 32)) % 2 == 1
  }

  /** The assignment of a mask: the encoded id (id + 1, unchecked) of every part whose bit is set. */
  function Assignment(ids: seq<int>, mask: nat): set<int>
  {
    set i | 0 <= i < |ids| && MaskBit(mask, i) :: Wrap32(ids[i] + 1)
  }

  /** The number of masks the search visits: 1 << n when it is positive, none otherwise. */
  function MaskCount(n: nat): nat
  {
    if ShiftOne(n) < 0 then 0 else ShiftOne(n)
  }

  datatype SearchState = SearchState(found: bool, best: set<int>)

  /** The search over the masks 0 .. m - 1: a satisfying assignment replaces the best one only when it is larger. */
  function SearchMasks(clauses: seq<seq<int>>, ids: seq<int>, m: nat): SearchState
  {
    if m == 0 then SearchState(false, {})
    else
      var s := SearchMasks(clauses, ids, m - 1);
      var a := Assignment(ids, m - 1);
      if Satisfies(clauses, a) then SearchState(true, if |a| > |s.best| then a else s.best) else s
  }

  /** The keys of encodedToActual, in the order ToDictionary inserts them. */
  function EncodedKeys(ids: seq<int>): (r: seq<int>)
    ensures |r| == |ids| && forall i :: 0 <= i < |ids| ==> r[i] == Wrap32(ids[i] + 1)
  {
    seq(|ids|, i requires 0 <= i < |ids| => Wrap32(ids[i] + 1))
  }

  /** The first key that ToDictionary meets a second time. */
  function FirstDuplicate(keys: seq<int>): (r: Option<int>)
    ensures r.None? <==> Distinct(keys)
    decreases |keys|
  {
    if keys == [] then None
    else
      var init := keys[..|keys| - 1];
      match FirstDuplicate(init)
      case Some(k) => Some(k)
      case None =>
        if keys[|keys| - 1] in init then
          var j :| 0 <= j < |init| && init[j] == keys[|keys| - 1];
          assert keys[j] == keys[|keys| - 1];
          Some(keys[|keys| - 1])
        else
          assert Distinct(keys) by {
            forall i, j | 0 <= i < j < |keys| ensures keys[i] != keys[j] {
              if j == |keys| - 1 { assert keys[i] == init[i]; } else { assert keys[i] == init[i] && keys[j] == init[j]; }
            }
          }
          None
  }

  /** Every encoded value decoded back: the TryGetValue fallback (encoded - 1) gives the same id. */
  function Decode(best: set<int>): set<int>
  {
    set e | e in best :: Wrap32(e - 1)
  }

  /** SolveBooleanAssignment. */
  function BooleanAssignment(ids: seq<int>, clauses: seq<seq<int>>): Result<set<int>, Failure>
  {
    if |clauses| == 0 then Ok(set i | 0 <= i < |ids| :: ids[i])
    else
      match FirstDuplicate(EncodedKeys(ids))
      case Some(k) => Err(Fault("ArgumentException", "An item with the same key has already been added. Key: " + IntToString(k)))
      case None =>
        var s := SearchMasks(clauses, ids, MaskCount(|ids|));
        if !s.found then Err(ConflictFailure("SAT model is unsatisfiable.")) else Ok(Decode(s.best))
  }

  // ---------------------------------------------------------------------
  // Plan steps and motion groups
  // ---------------------------------------------------------------------

  /** The first candidate ray that is a feasible motion for the part. */
  function FirstFeasible(m: MotionModel, part: int, rays: seq<Vec3>): (r: Option<Vec3>)
    ensures r.Some? ==> r.value in rays && IsMotionFeasible(m, part, r.value)
    ensures r.None? <==> forall i :: 0 <= i < |rays| ==> !IsMotionFeasible(m, part, rays[i])
  {
    if rays == [] then None
    else if IsMotionFeasible(m, part, rays[0]) then Some(rays[0])
    else FirstFeasible(m, part, rays[1..])
  }

  /** TrySelectMotionVector: the first feasible ray of the part, else +Z when feasible, else the reason. */
  function SelectMotion(m: MotionModel, part: int): (r: Result<Vec3, string>)
    ensures r.Ok? ==> IsMotionFeasible(m, part, r.value)
    ensures r.Err? ==> r.error == "No feasible motion vector for part " + IntToString(part) + "."
  {
    match FirstFeasible(m, part, GetPartMotionRays(m, part))
    case Some(v) => Ok(v)
    case None =>
      if IsMotionFeasible(m, part, ZAxis) then Ok(ZAxis)
      else Err("No feasible motion vector for part " + IntToString(part) + ".")
  }

  datatype PlanState = PlanState(steps: seq<Step>, motions: seq<Vec3>)

  /** Why BuildPlanSteps throws: a part that the snapshot lacks, or a part with no feasible motion. */
  datatype PlanFailure = MissingPart(part: int) | NoMotion(part: int, reason: string)

  /** Whether a part of the order is planned: every part without a selection, the selected ones otherwise. */
  predicate Planned(selected: Option<set<int>>, p: int)
  {
    selected.None? || p in selected.value
  }

  /** BuildPlanSteps over a prefix of the order. */
  function PlanSteps(order: seq<int>, a: AssemblyModel, m: MotionModel, selected: Option<set<int>>, batch: int): Result<PlanState, PlanFailure>
    decreases |order|
  {
    if order == [] then Ok(PlanState([], []))
    else
      match PlanSteps(order[..|order| - 1], a, m, selected, batch)
      case Err(e) => Err(e)
      case Ok(st) =>
        var p := order[|order| - 1];
        if !Planned(selected, p) then Ok(st)
        else
          match IndexToPosition(a, p)
          case None => Err(MissingPart(p))
          case Some(pos) =>
            match SelectMotion(m, p)
            case Err(reason) => Err(NoMotion(p, reason))
            case Ok(dir) =>
              Ok(PlanState(st.steps + [Step(|st.steps|, a.parts[pos], dir, false, batch)], st.motions + [dir]))
  }

  /** The InfeasibleException BuildPlanSteps throws. */
  function PlanFailureOf(e: PlanFailure): Failure
  {
    match e
    case MissingPart(p) => InfeasibleFailure("Part " + IntToString(p) + " is missing from assembly snapshot.")
    case NoMotion(_, reason) => InfeasibleFailure(reason)
  }

  /** The parts of the order that BuildPlanSteps plans, in order. */
  function PlannedParts(order: seq<int>, selected: Option<set<int>>): seq<int>
    decreases |order|
  {
    if order == [] then []
    else
      var init := PlannedParts(order[..|order| - 1], selected);
      if Planned(selected, order[|order| - 1]) then init + [order[|order| - 1]] else init
  }

  /** The message of the exception int.Parse throws, by its type name. */
  function ParseMessage(kind: string): string
  {
    if kind == "OverflowException" then "Value was either too large or too small for an Int32."
    else "Input string was not in a correct format."
  }

  /** ExtractMotionGroups: every group key parsed, keeping groups wholly inside the selection. */
  function MotionGroups(keys: seq<string>, selected: Option<set<int>>): Result<seq<seq<int>>, Failure>
    decreases |keys|
  {
    if keys == [] then Ok([])
    else
      match MotionGroups(keys[..|keys| - 1], selected)
      case Err(f) => Err(f)
      case Ok(gs) =>
        match ParseGroupKey(keys[|keys| - 1])
        case Err(kind) => Err(Fault(kind, ParseMessage(kind)))
        case Ok(indices) =>
          if LeavesSelection(indices, selected) then Ok(gs)
          else Ok(gs + [indices])
  }

  /** A group is skipped when it holds a part outside the selection. */
  predicate LeavesSelection(indices: seq<int>, selected: Option<set<int>>)
  {
    selected.Some? && exists i :: 0 <= i < |indices| && indices[i] !in selected.value
  }

  // ---------------------------------------------------------------------
  // The solve paths
  // ---------------------------------------------------------------------

  /** SolverDiagnostics.Log. */
  function DiagnosticsLog(logs: seq<string>): string
  {
    if logs == [] then "Solver completed successfully." else Join(logs, " | ")
  }

  function SuccessLine(steps: int): string
  {
    "Generated " + IntToString(steps) + " steps."
  }

  function InfeasibleLine(part: int, reason: string): string
  {
    "Part " + IntToString(part) + " infeasible: " + reason
  }

  /** CreateBaseMetadata; the timestamp is the clock's reading. */
  function BaseMetadata(r: Request): map<string, Meta>
  {
    map["solver" := (if r.solverId.Some? then MetaText(r.solverId.value) else MetaNull),
        "backend" := MetaText("managed-ortools-fallback"),
        "timestamp" := MetaClock]
  }

  /** A stage's outcome and the metadata dictionary as it stood when the stage ended. */
  datatype Staged = Staged(metadata: map<string, Meta>, result: Result<BackendResult, Failure>)

  /** The plan steps and motion groups of an order, and the feasible result. */
  function Finish(r: Request, order: seq<int>, selected: Option<set<int>>, metadata: map<string, Meta>,
                  extra: map<string, Meta>): Staged
  {
    match PlanSteps(order, r.assembly, r.constraints.motion, selected, 0)
    case Err(e) => Staged(metadata, Err(PlanFailureOf(e)))
    case Ok(plan) =>
      match MotionGroups(GetAllGroupKeys(r.constraints.motion), selected)
      case Err(f) => Staged(metadata, Err(f))
      case Ok(groups) =>
        var meta := (metadata + extra)["stepCount" := MetaInt(|plan.steps|)];
        Staged(meta, Ok(BackendResult(Feasible, plan.steps, plan.motions, groups, DiagnosticsLog([SuccessLine(|plan.steps|)]), meta)))
  }

  /** SolveCsp: the smallest topological order of the whole dependency graph. */
  ghost function SolveCsp(r: Request, metadata: map<string, Meta>): Staged
  {
    var meta := metadata["mode" := MetaText("CSP")];
    match DependencyGraphOf(r)
    case Err(f) => Staged(meta, Err(f))
    case Ok(g) =>
      match ResolveOrder(g.adjacency, g.implications, g.forbidden)
      case Err(f) => Staged(meta, Err(f))
      case Ok(order) =>
        var meta2 := meta["expandedConstraints" := MetaInt(SumSizes(g.adjacency, g.adjacency.Keys))];
        var st := Finish(r, order, None, meta2, map[]);
        if st.result.Ok? then
          var meta3 := st.metadata["dependencyCount" := MetaInt(g.dependencyCount)];
          Staged(meta3, Ok(st.result.value.(metadata := meta3)))
        else st
  }

  /**
   * DependencyGraph.ResolveOrder with the part costs as weights. Whatever the
   * priority, the loop places every node exactly when the graph has a
   * topological order, so the cycle verdict is the unweighted one; the order
   * the weighted loop places the nodes in is the input `weighted`. The
   * implication and forbidden-part checks follow as without weights.
   */
  ghost function ResolveWeightedOrder(adj: Adjacency, imps: seq<Implication>, forbidden: seq<int>, weighted: seq<int>)
    : Result<seq<int>, Failure>
  {
    if !HasTopoOrder(adj) then Err(ConflictFailure(CycleMessage))
    else
      match ValidateImplications(imps, weighted)
      case Some(f) => Err(f)
      case None =>
        match ValidateForbidden(forbidden, weighted)
        case Some(f) => Err(f)
        case None => Ok(weighted)
  }

  /** SolveMilp, with the order of the weighted loop and the objective of ResolveMilpOrder as inputs. */
  ghost function SolveMilp(r: Request, metadata: map<string, Meta>, milpOrder: seq<int>, objective: real): Staged
  {
    var meta := metadata["mode" := MetaText("MILP")];
    match DependencyGraphOf(r)
    case Err(f) => Staged(meta, Err(f))
    case Ok(g) =>
      match ResolveWeightedOrder(g.adjacency, g.implications, g.forbidden, milpOrder)
      case Err(f) => Staged(meta, Err(f))
      case Ok(order) => Finish(r, order, None, meta["objective" := MetaReal(objective)], map[])
  }

  /** string.Join(",", selected.OrderBy(i => i)). */
  function SelectedText(selected: set<int>): string
  {
    var sorted := IntSets.SortedOf(selected);
    Join(seq(|sorted|, i requires 0 <= i < |sorted| => IntToString(sorted[i])), ",")
  }

  /** SolveSat: the maximum assignment, then the smallest topological order of the selected parts. */
  ghost function SolveSat(r: Request, metadata: map<string, Meta>): Staged
  {
    var meta := metadata["mode" := MetaText("SAT")];
    match DependencyGraphOf(r)
    case Err(f) => Staged(meta, Err(f))
    case Ok(g) =>
      match ExtractClauses(r.constraints.groupConstraints)
      case Err(f) => Staged(meta, Err(f))
      case Ok(clauses) =>
        var meta2 := meta["cnfClauses" := MetaInt(|clauses|)];
        match BooleanAssignment(PartIds(r.assembly), clauses)
        case Err(f) => Staged(meta2, Err(f))
        case Ok(selected) =>
          if selected == {} then Staged(meta2, Err(InfeasibleFailure("SAT assignment disabled all parts.")))
          else
            match ResolveOrder(Filtered(g.adjacency, selected), g.implications, g.forbidden)
            case Err(f) => Staged(meta2, Err(f))
            case Ok(order) => Finish(r, order, Some(selected), meta2, map["selectedParts" := MetaText(SelectedText(selected))])
  }

  /** The solver id in upper case, the switch of Solve. */
  ghost function Dispatch(r: Request, milpOrder: seq<int>, objective: real): Staged
  {
    var meta := BaseMetadata(r);
    var id := if r.solverId.Some? then Some(UpperAscii(r.solverId.value)) else None;
    if id == Some("MILP") then SolveMilp(r, meta, milpOrder, objective)
    else if id == Some("SAT") then SolveSat(r, meta)
    else SolveCsp(r, meta)
  }

  /** BuildResult: no steps, motions or groups, and the message as the log. */
  function FailureResult(f: Failure, metadata: map<string, Meta>): BackendResult
  {
    match f
    case ConflictFailure(message) => BackendResult(Conflict, [], [], [], message, metadata)
    case InfeasibleFailure(message) => BackendResult(Infeasible, [], [], [], message, metadata)
    case Fault(kind, message) =>
      BackendResult(Error, [], [], [], "Backend error: " + message,
                    metadata["exception" := MetaText(kind)]["exceptionMessage" := MetaText(message)])
  }

  /** Solve: a null request throws; every exception of a solve path becomes an outcome. */
  ghost function Solve(request: Option<Request>, milpOrder: seq<int>, objective: real): Result<BackendResult, Exception>
  {
    if request.None? then Err(ArgumentNullException("request"))
    else
      var st := Dispatch(request.value, milpOrder, objective);
      match st.result
      case Ok(res) => Ok(res)
      case Err(f) => Ok(FailureResult(f, st.metadata))
  }
}
