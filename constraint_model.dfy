// The read-only constraint model: the graph and motion models plus textual
// constraints per part and per part group, and the movability rules built on them.
module Constraints {
  import opened Common
  import opened Motion
  import opened PlanningGraph

  /** The two constraint dictionaries are kept as their entries in enumeration order. */
  datatype ConstraintModel = ConstraintModel(
    graph: GraphModel,
    motion: MotionModel,
    partConstraints: seq<(int, seq<string>)>,
    groupConstraints: seq<(string, seq<string>)>,
    hash: string)

  /** The constructor: the result names the first null argument. */
  function NewConstraintModel(graph: Option<GraphModel>, motion: Option<MotionModel>,
                              partConstraints: Option<seq<(int, seq<string>)>>,
                              groupConstraints: Option<seq<(string, seq<string>)>>,
                              hash: Option<string>): (r: Result<ConstraintModel, string>)
    ensures r.Ok? <==> graph.Some? && motion.Some? && partConstraints.Some? && groupConstraints.Some? && hash.Some?
    ensures r.Ok? ==> r.value == ConstraintModel(graph.value, motion.value, partConstraints.value,
                                                 groupConstraints.value, hash.value)
    ensures graph.None? ==> r == Err("graphModel")
    ensures graph.Some? && motion.None? ==> r == Err("motionModel")
  {
    if graph.None? then Err("graphModel")
    else if motion.None? then Err("motionModel")
    else if partConstraints.None? then Err("partConstraints")
    else if groupConstraints.None? then Err("groupConstraints")
    else if hash.None? then Err("hash")
    else Ok(ConstraintModel(graph.value, motion.value, partConstraints.value, groupConstraints.value, hash.value))
  }

  /** GetPartConstraints: the empty list for a part without constraints. */
  function GetPartConstraints(c: ConstraintModel, part: int): (r: seq<string>)
    ensures !HasKey(c.partConstraints, part) ==> r == []
    ensures forall i :: 0 <= i < |c.partConstraints| && c.partConstraints[i].0 == part && (forall j :: 0 <= j < i ==> c.partConstraints[j].0 != part)
              ==> r == c.partConstraints[i].1
  {
    LookupOr(c.partConstraints, part, [])
  }

  /** GetGroupConstraints(string): the empty list for an unknown key. */
  function GetGroupConstraintsByKey(c: ConstraintModel, key: string): (r: seq<string>)
    ensures !HasKey(c.groupConstraints, key) ==> r == []
    ensures forall i :: 0 <= i < |c.groupConstraints| && c.groupConstraints[i].0 == key && (forall j :: 0 <= j < i ==> c.groupConstraints[j].0 != key)
              ==> r == c.groupConstraints[i].1
  {
    LookupOr(c.groupConstraints, key, [])
  }

  /** GetGroupConstraints(IEnumerable<int>): the same sorted "-" key as the motion model. */
  function GetGroupConstraints(c: ConstraintModel, indices: seq<int>): seq<string>
  {
    GetGroupConstraintsByKey(c, GroupKey(indices))
  }

  /** CanPartMove: a part with positive in-degree is blocked; otherwise its motion cone decides. */
  predicate CanPartMove(c: ConstraintModel, part: int, v: Vec3)
  {
    if GetInDegree(c.graph, part) > 0 then false else IsMotionFeasible(c.motion, part, v)
  }

  /** CanGroupMove: every member must have in-degree 0, then the group's motion cone decides. */
  predicate CanGroupMove(c: ConstraintModel, indices: seq<int>, v: Vec3)
  {
    (forall i :: 0 <= i < |indices| ==> GetInDegree(c.graph, indices[i]) <= 0)
    && IsGroupMotionFeasible(c.motion, indices, v)
  }

  // ---------------------------------------------------------------------
  // Properties
  // ---------------------------------------------------------------------

  /** The order of the indices does not matter for group constraints or group movability. */
  lemma GroupConstraintsOrderFree(c: ConstraintModel, a: seq<int>, b: seq<int>, v: Vec3)
    requires multiset(a) == multiset(b)
    ensures GetGroupConstraints(c, a) == GetGroupConstraints(c, b)
    ensures CanGroupMove(c, a, v) == CanGroupMove(c, b, v)
  {
    GroupKeyOrderFree(a, b);
    GroupRaysOrderFree(c.motion, a, b, v);
    forall i | 0 <= i < |a| ensures exists j :: 0 <= j < |b| && b[j] == a[i] {
      assert a[i] in multiset(b);
    }
    forall j | 0 <= j < |b| ensures exists i :: 0 <= i < |a| && a[i] == b[j] {
      assert b[j] in multiset(a);
    }
  }

  /** A part with positive in-degree can move in no direction; with in-degree 0 its motion cone decides. */
  lemma PartMoveGate(c: ConstraintModel, part: int, v: Vec3)
    ensures GetInDegree(c.graph, part) > 0 ==> !CanPartMove(c, part, v)
    ensures GetInDegree(c.graph, part) <= 0 ==> (CanPartMove(c, part, v) <==> IsMotionFeasible(c.motion, part, v))
    ensures !HasInDegree(c.graph, part) ==> (CanPartMove(c, part, v) <==> IsMotionFeasible(c.motion, part, v))
  {
  }

  /** One blocked member blocks the whole group. */
  lemma GroupMoveGate(c: ConstraintModel, indices: seq<int>, v: Vec3, k: nat)
    requires k < |indices| && GetInDegree(c.graph, indices[k]) > 0
    ensures !CanGroupMove(c, indices, v)
  {
  }
}
