// The read-only solver model: a disassembly (or assembly) sequence of steps with
// one motion vector per step, its reversal into an assembly sequence, and the
// factory that validates and defaults its inputs.
module SolverModels {
  import opened Common
  import opened Motion
  import opened Entities

  /** A sequence step: its position, the part it moves, the motion, whether it inserts, and its batch. */
  datatype Step = Step(index: int, part: Part, direction: Vec3, insert: bool, batch: int)

  datatype DgSolverModel = DgSolverModel(
    steps: seq<Step>,
    vectors: seq<Vec3>,
    groups: seq<seq<int>>,
    isFeasible: bool,
    isOptimal: bool,
    log: string,
    solveTimeSeconds: real,
    solverType: string,
    metadata: map<string, Meta>,
    isAssemblySequence: bool)

  /** What the constructor guarantees of every instance: one vector per step. */
  predicate ValidSolverModel(m: DgSolverModel)
  {
    |m.steps| == |m.vectors|
  }

  /**
   * The internal constructor: null lists throw ArgumentNullException, a null log
   * becomes "", a null solver type "Unknown", null metadata an empty dictionary,
   * and different step and vector counts throw ArgumentException.
   */
  function NewDgSolverModel(steps: Option<seq<Step>>, vectors: Option<seq<Vec3>>, groups: Option<seq<seq<int>>>,
                            isFeasible: bool, isOptimal: bool, log: Option<string>, solveTimeSeconds: real,
                            solverType: Option<string>, metadata: Option<map<string, Meta>>,
                            isAssemblySequence: bool): (r: Result<DgSolverModel, Exception>)
    ensures steps.None? ==> r == Err(ArgumentNullException("steps"))
    ensures steps.Some? && vectors.None? ==> r == Err(ArgumentNullException("vectors"))
    ensures steps.Some? && vectors.Some? && groups.None? ==> r == Err(ArgumentNullException("groups"))
    ensures steps.Some? && vectors.Some? && groups.Some? && |steps.value| != |vectors.value| ==>
              r == Err(ArgumentException("Steps and Vectors must have the same length"))
    ensures r.Ok? <==> steps.Some? && vectors.Some? && groups.Some? && |steps.value| == |vectors.value|
    ensures r.Ok? ==> ValidSolverModel(r.value)
    ensures r.Ok? ==> r.value.steps == steps.value && r.value.vectors == vectors.value && r.value.groups == groups.value
    ensures r.Ok? ==> r.value.isFeasible == isFeasible && r.value.isOptimal == isOptimal
    ensures r.Ok? ==> r.value.solveTimeSeconds == solveTimeSeconds && r.value.isAssemblySequence == isAssemblySequence
    ensures r.Ok? ==> r.value.log == (if log.Some? then log.value else "")
    ensures r.Ok? ==> r.value.solverType == (if solverType.Some? then solverType.value else "Unknown")
    ensures r.Ok? ==> r.value.metadata == (if metadata.Some? then metadata.value else map[])
  {
    if steps.None? then Err(ArgumentNullException("steps"))
    else if vectors.None? then Err(ArgumentNullException("vectors"))
    else if groups.None? then Err(ArgumentNullException("groups"))
    else if |steps.value| != |vectors.value| then Err(ArgumentException("Steps and Vectors must have the same length"))
    else Ok(DgSolverModel(steps.value, vectors.value, groups.value, isFeasible, isOptimal,
                          if log.Some? then log.value else "", solveTimeSeconds,
                          if solverType.Some? then solverType.value else "Unknown",
                          if metadata.Some? then metadata.value else map[], isAssemblySequence))
  }

  function StepCount(m: DgSolverModel): nat { |m.steps| }

  /** GetStep: the step at an index in [0, Count), ArgumentOutOfRangeException otherwise. */
  function GetStep(m: DgSolverModel, index: int): (r: Result<Step, Exception>)
    ensures r.Ok? <==> 0 <= index < |m.steps|
    ensures r.Ok? ==> r.value == m.steps[index]
    ensures r.Err? ==> r.error == ArgumentOutOfRangeException("index", OutOfRangeMessage)
  {
    if index < 0 || index >= |m.steps| then Err(ArgumentOutOfRangeException("index", OutOfRangeMessage)) else Ok(m.steps[index])
  }

  /** GetVector: the vector at an index in [0, Count), ArgumentOutOfRangeException otherwise. */
  function GetVector(m: DgSolverModel, index: int): (r: Result<Vec3, Exception>)
    ensures r.Ok? <==> 0 <= index < |m.vectors|
    ensures r.Ok? ==> r.value == m.vectors[index]
    ensures r.Err? ==> r.error == ArgumentOutOfRangeException("index", OutOfRangeMessage)
  {
    if index < 0 || index >= |m.vectors| then Err(ArgumentOutOfRangeException("index", OutOfRangeMessage)) else Ok(m.vectors[index])
  }

  /** The k-th step of the assembly sequence: the (n-1-k)-th disassembly step, re-indexed, inserted, reversed. */
  function AssemblyStep(s: Step, k: int): Step
  {
    Step(k, s.part, s.direction.Negate(), true, s.batch)
  }

  /** The assembly sequence of a disassembly sequence: steps, vectors and groups in reverse order. */
  function Reversed(m: DgSolverModel): (r: DgSolverModel)
    requires ValidSolverModel(m)
    ensures ValidSolverModel(r)
  {
    var n := |m.steps|;
    var g := |m.groups|;
    m.(steps := seq(n, k requires 0 <= k < n => AssemblyStep(m.steps[n - 1 - k], k)),
       vectors := seq(n, k requires 0 <= k < n => m.vectors[n - 1 - k].Negate()),
       groups := seq(g, k requires 0 <= k < g => m.groups[g - 1 - k]),
       isAssemblySequence := true)
  }

  /** ToAssemblySequence: an assembly sequence is returned as it is; otherwise the reversed copy. */
  method ToAssemblySequence(m: DgSolverModel) returns (r: DgSolverModel)
    requires ValidSolverModel(m)
    ensures r == (if m.isAssemblySequence then m else Reversed(m))
  {
    if m.isAssemblySequence {
      return m;
    }
    var n := |m.steps|;
    var assemblySteps: seq<Step> := [];
    var assemblyVectors: seq<Vec3> := [];
    var assemblyGroups: seq<seq<int>> := [];
    var i := n - 1;
    while i >= 0
      invariant -1 <= i < n
      invariant |assemblySteps| == |assemblyVectors| == n - 1 - i
      invariant forall k :: 0 <= k < n - 1 - i ==> assemblySteps[k] == AssemblyStep(m.steps[n - 1 - k], k)
      invariant forall k :: 0 <= k < n - 1 - i ==> assemblyVectors[k] == m.vectors[n - 1 - k].Negate()
    {
      var step := m.steps[i];
      assemblySteps := assemblySteps + [Step(|assemblySteps|, step.part, step.direction.Negate(), true, step.batch)];
      assemblyVectors := assemblyVectors + [m.vectors[i].Negate()];
      i := i - 1;
    }
    var g := |m.groups|;
    i := g - 1;
    while i >= 0
      invariant -1 <= i < g
      invariant |assemblyGroups| == g - 1 - i
      invariant forall k :: 0 <= k < g - 1 - i ==> assemblyGroups[k] == m.groups[g - 1 - k]
    {
      assemblyGroups := assemblyGroups + [m.groups[i]];
      i := i - 1;
    }
    r := m.(steps := assemblySteps, vectors := assemblyVectors, groups := assemblyGroups, isAssemblySequence := true);
  }

  /** The reversal keeps every count and flags the result as an assembly sequence. */
  lemma ReversedShape(m: DgSolverModel)
    requires ValidSolverModel(m)
    ensures |Reversed(m).steps| == |m.steps| && |Reversed(m).groups| == |m.groups|
    ensures Reversed(m).isAssemblySequence
    ensures forall k :: 0 <= k < |m.steps| ==> Reversed(m).steps[k].index == k && Reversed(m).steps[k].insert
    ensures forall k :: 0 <= k < |m.steps| ==>
              (m.steps[|m.steps| - 1 - k].direction == m.vectors[|m.steps| - 1 - k] ==>
               Reversed(m).steps[k].direction == Reversed(m).vectors[k])
  {
    var r := Reversed(m);
    var n := |m.steps|;
    forall k | 0 <= k < n ensures r.steps[k] == AssemblyStep(m.steps[n - 1 - k], k) && r.vectors[k] == m.vectors[n - 1 - k].Negate() {
    }
  }

  /**
   * Reversing twice gives back the parts, directions, batches, vectors and groups of the
   * original, re-indexed from 0 and marked as insertions.
   */
  lemma ReversedTwice(m: DgSolverModel)
    requires ValidSolverModel(m)
    ensures var rr := Reversed(Reversed(m));
      rr.vectors == m.vectors && rr.groups == m.groups
      && |rr.steps| == |m.steps|
      && forall k :: 0 <= k < |m.steps| ==> rr.steps[k] == m.steps[k].(index := k, insert := true)
  {
    var r := Reversed(m);
    var rr := Reversed(r);
    var n := |m.steps|;
    forall k | 0 <= k < n ensures rr.steps[k] == m.steps[k].(index := k, insert := true) {
      assert rr.steps[k] == AssemblyStep(r.steps[n - 1 - k], k);
      assert r.steps[n - 1 - k] == AssemblyStep(m.steps[k], n - 1 - k);
    }
    forall k | 0 <= k < n ensures rr.vectors[k] == m.vectors[k] {
      assert rr.vectors[k] == r.vectors[n - 1 - k].Negate();
      assert r.vectors[n - 1 - k] == m.vectors[k].Negate();
    }
    var g := |m.groups|;
    forall k | 0 <= k < g ensures rr.groups[k] == m.groups[k] {
      assert rr.groups[k] == r.groups[g - 1 - k];
    }
  }

  // ---------------------------------------------------------------------
  // SolverModelFactory.Create
  // ---------------------------------------------------------------------

  /**
   * SolverModelFactory.Create: null steps or vectors throw ArgumentNullException,
   * different counts throw ArgumentException, and the groups (default empty),
   * metadata (default empty), log (default "") and solver type (default "Unknown")
   * are filled in before the constructor runs.
   */
  function Create(steps: Option<seq<Step>>, vectors: Option<seq<Vec3>>, groups: Option<seq<seq<int>>>,
                  isFeasible: bool, isOptimal: bool, log: Option<string>, solveTimeSeconds: real,
                  solverType: Option<string>, metadata: Option<map<string, Meta>>,
                  isAssemblySequence: bool): (r: Result<DgSolverModel, Exception>)
    ensures steps.None? ==> r == Err(ArgumentNullException("steps"))
    ensures steps.Some? && vectors.None? ==> r == Err(ArgumentNullException("vectors"))
    ensures steps.Some? && vectors.Some? && |steps.value| != |vectors.value| ==>
              r == Err(ArgumentException(WithParameter("Steps and vectors must have the same number of elements.", "vectors")))
    ensures r.Ok? <==> steps.Some? && vectors.Some? && |steps.value| == |vectors.value|
    ensures r.Ok? ==> ValidSolverModel(r.value) && r.value.steps == steps.value && r.value.vectors == vectors.value
    ensures r.Ok? ==> r.value.groups == (if groups.Some? then groups.value else [])
    ensures r.Ok? ==> r.value.log == (if log.Some? then log.value else "")
    ensures r.Ok? ==> r.value.solverType == (if solverType.Some? then solverType.value else "Unknown")
    ensures r.Ok? ==> r.value.metadata == (if metadata.Some? then metadata.value else map[])
    ensures r.Ok? ==> r.value.isAssemblySequence == isAssemblySequence && r.value.isFeasible == isFeasible
    ensures r.Ok? ==> r.value.isOptimal == isOptimal && r.value.solveTimeSeconds == solveTimeSeconds
  {
    if steps.None? then Err(ArgumentNullException("steps"))
    else if vectors.None? then Err(ArgumentNullException("vectors"))
    else if |steps.value| != |vectors.value| then
      Err(ArgumentException(WithParameter("Steps and vectors must have the same number of elements.", "vectors")))
    else
      var groupList := if groups.Some? then groups.value else [];
      var meta := if metadata.Some? then metadata.value else map[];
      NewDgSolverModel(steps, vectors, Some(groupList), isFeasible, isOptimal,
                       Some(if log.Some? then log.value else ""), solveTimeSeconds,
                       Some(if solverType.Some? then solverType.value else "Unknown"), Some(meta), isAssemblySequence)
  }
}
