// The mutable domain entities: a joint between two parts that can be switched
// on and off, its motion limits, and an assembly whose part list and
// sub-assembly list change in place. Sub-assemblies are kept as value trees,
// so recursive lookups and the cycle check are functions on trees.
module DomainEntities {
  import opened Common
  import opened Entities

  /** A part entity as the assembly sees it: its identity and the two flags the queries read. */
  datatype PartEntity = PartEntity(entity: EntityRef, name: string, hasValidGeometry: bool, hasPhysics: bool)
  {
    function Id(): int { entity.id }
  }

  // ---------------------------------------------------------------------
  // Joint limits
  // ---------------------------------------------------------------------

  datatype JointLimits = JointLimits(min: Double, max: Double)
  {
    /** HasLimits. */
    predicate HasLimits() { Lt(min, max) }
  }

  const LimitsOrderMessage := "Min must be less than Max"

  /** The JointLimits constructor as written: it rejects min >= max. */
  function NewJointLimits(min: Double, max: Double): (r: Result<JointLimits, Exception>)
    ensures r.Err? <==> Ge(min, max)
    ensures r.Err? ==> r.error == ArgumentException(LimitsOrderMessage)
    ensures r.Ok? ==> r.value.min == min && r.value.max == max
  {
    if Ge(min, max) then Err(ArgumentException(LimitsOrderMessage)) else Ok(JointLimits(min, max))
  }

  /** Away from NaN the guard is exact: a constructed value has limits. */
  lemma NewJointLimitsOrdered(min: Double, max: Double)
    requires !min.NaN? && !max.NaN?
    ensures NewJointLimits(min, max).Ok? <==> Lt(min, max)
    ensures NewJointLimits(min, max).Ok? ==> NewJointLimits(min, max).value.HasLimits()
  {
  }

  /** A NaN bound passes the guard, and the constructed value then has no limits. */
  lemma NaNBoundHasNoLimits()
    ensures NewJointLimits(NaN, Finite(0.0)).Ok?
    ensures !NewJointLimits(NaN, Finite(0.0)).value.HasLimits()
  {
  }

  /** The guard as intended: accept exactly the ordered pairs. */
  function NewJointLimitsChecked(min: Double, max: Double): (r: Result<JointLimits, Exception>)
    ensures r.Ok? <==> Lt(min, max)
    ensures r.Ok? ==> r.value == JointLimits(min, max) && r.value.HasLimits()
    ensures r.Err? ==> r.error == ArgumentException(LimitsOrderMessage)
  {
    if !Lt(min, max) then Err(ArgumentException(LimitsOrderMessage)) else Ok(JointLimits(min, max))
  }

  /** JointLimits.Unlimited: (-infinity, +infinity). */
  const Unlimited := JointLimits(NegativeInfinity, PositiveInfinity)

  /** Both guards accept the unlimited range, which has limits. */
  lemma UnlimitedAccepted()
    ensures NewJointLimits(NegativeInfinity, PositiveInfinity) == Ok(Unlimited)
    ensures NewJointLimitsChecked(NegativeInfinity, PositiveInfinity) == Ok(Unlimited)
    ensures Unlimited.HasLimits()
  {
  }

  // ---------------------------------------------------------------------
  // Joint
  // ---------------------------------------------------------------------

  datatype JointType = Fixed | Revolute | Prismatic | Spherical | Planar

  const SamePartMessage := "Cannot create joint between same part"
  const NotInvolvedMessage := "Part is not part of this joint"

  /** The checks of the Joint constructor, in order: no exception means the joint is built. */
  function JointError(partA: Option<PartEntity>, partB: Option<PartEntity>): (r: Option<Exception>)
    ensures r.None? <==> partA.Some? && partB.Some? && partA.value.Id() != partB.value.Id()
    ensures partA.None? ==> r == Some(ArgumentNullException("partA"))
    ensures partA.Some? && partB.None? ==> r == Some(ArgumentNullException("partB"))
    ensures partA.Some? && partB.Some? && partA.value.Id() == partB.value.Id() ==> r == Some(ArgumentException(SamePartMessage))
  {
    if partA.None? then Some(ArgumentNullException("partA"))
    else if partB.None? then Some(ArgumentNullException("partB"))
    else if partA.value.Id() == partB.value.Id() then Some(ArgumentException(SamePartMessage))
    else None
  }

  class Joint {
    const id: int
    const partA: PartEntity
    const partB: PartEntity
    const jointType: JointType
    const limits: JointLimits
    var isActive: bool

    /** The two ends are different parts. */
    predicate Valid()
    {
      partA.Id() != partB.Id()
    }

    /** The constructor once its checks have passed; a new joint is active and unlimited by default. */
    constructor(id: int, partA: PartEntity, partB: PartEntity, jointType: JointType, limits: Option<JointLimits>)
      requires JointError(Some(partA), Some(partB)).None?
      ensures Valid() && isActive
      ensures this.id == id && this.partA == partA && this.partB == partB && this.jointType == jointType
      ensures this.limits == if limits.None? then Unlimited else limits.value
    {
      this.id := id;
      this.partA := partA;
      this.partB := partB;
      this.jointType := jointType;
      this.limits := if limits.None? then Unlimited else limits.value;
      isActive := true;
    }

    method Activate()
      modifies this
      ensures isActive
    {
      isActive := true;
    }

    method Deactivate()
      modifies this
      ensures !isActive
    {
      isActive := false;
    }

    /** InvolvesPart. */
    predicate InvolvesPart(partId: int)
    {
      partA.Id() == partId || partB.Id() == partId
    }

    /** GetOtherPart: the end that does not carry the Id; an error for an uninvolved Id. */
    function GetOtherPart(partId: int): (r: Result<PartEntity, Exception>)
      requires Valid()
      ensures r.Ok? <==> InvolvesPart(partId)
      ensures r.Ok? ==> (r.value == partA || r.value == partB) && r.value.Id() != partId
      ensures r.Err? ==> r.error == ArgumentException(WithParameter(NotInvolvedMessage, "partId"))
    {
      if partA.Id() == partId then Ok(partB)
      else if partB.Id() == partId then Ok(partA)
      else Err(ArgumentException(WithParameter(NotInvolvedMessage, "partId")))
    }

    /** Taking the other end twice leads back to the part one started from. */
    lemma OtherOfOther(partId: int)
      requires Valid() && InvolvesPart(partId)
      ensures InvolvesPart(GetOtherPart(partId).value.Id())
      ensures GetOtherPart(GetOtherPart(partId).value.Id()).value.Id() == partId
    {
    }
  }

  /** new Joint(...): the constructor's checks, then the joint. */
  method NewJoint(id: int, partA: Option<PartEntity>, partB: Option<PartEntity>, jointType: JointType, limits: Option<JointLimits>)
    returns (r: Result<Joint, Exception>)
    ensures r.Err? <==> JointError(partA, partB).Some?
    ensures r.Err? ==> r.error == JointError(partA, partB).value
    ensures r.Ok? ==> fresh(r.value) && r.value.Valid() && r.value.isActive
    ensures r.Ok? ==> r.value.id == id && r.value.partA == partA.value && r.value.partB == partB.value
    ensures r.Ok? ==> r.value.jointType == jointType && r.value.limits == if limits.None? then Unlimited else limits.value
  {
    var err := JointError(partA, partB);
    if err.Some? {
      return Err(err.value);
    }
    var j := new Joint(id, partA.value, partB.value, jointType, limits);
    return Ok(j);
  }

  // ---------------------------------------------------------------------
  // Assembly trees
  // ---------------------------------------------------------------------

  /** The state of an assembly: its Id, name, description, direct parts and sub-assemblies. */
  datatype AssemblyTree = AssemblyTree(
    id: int, name: string, description: Option<string>, parts: seq<PartEntity>, subs: seq<AssemblyTree>)

  /** GetAllParts: the direct parts, then each sub-assembly's parts in order. */
  function AllParts(t: AssemblyTree): seq<PartEntity>
    decreases t
  {
    t.parts + AllPartsOf(t.subs)
  }

  function AllPartsOf(ts: seq<AssemblyTree>): seq<PartEntity>
    decreases ts
  {
    if ts == [] then [] else AllParts(ts[0]) + AllPartsOf(ts[1..])
  }

  /** TotalPartCount: the direct count plus the sub-assemblies' totals; it counts GetAllParts. */
  function TotalPartCount(t: AssemblyTree): (n: nat)
    ensures n == |AllParts(t)|
    decreases t
  {
    |t.parts| + TotalPartCountOf(t.subs)
  }

  function TotalPartCountOf(ts: seq<AssemblyTree>): (n: nat)
    ensures n == |AllPartsOf(ts)|
    decreases ts
  {
    if ts == [] then 0 else TotalPartCount(ts[0]) + TotalPartCountOf(ts[1..])
  }

  /** FirstOrDefault(p => p.Id == partId). */
  function FirstWithId(ps: seq<PartEntity>, partId: int): (r: Option<PartEntity>)
    ensures r.None? <==> forall i :: 0 <= i < |ps| ==> ps[i].Id() != partId
    ensures r.Some? ==> exists i :: 0 <= i < |ps| && ps[i] == r.value && r.value.Id() == partId
                          && forall j :: 0 <= j < i ==> ps[j].Id() != partId
  {
    if ps == [] then None
    else if ps[0].Id() == partId then Some(ps[0])
    else
      var r := FirstWithId(ps[1..], partId);
      assert forall i :: 1 <= i < |ps| ==> ps[1..][i - 1] == ps[i];
      if r.Some? then
        var i :| 0 <= i < |ps[1..]| && ps[1..][i] == r.value && r.value.Id() == partId
                   && forall j :: 0 <= j < i ==> ps[1..][j].Id() != partId;
        assert ps[i + 1] == r.value;
        r
      else r
  }

  lemma {:induction false} FirstWithIdConcat(a: seq<PartEntity>, b: seq<PartEntity>, partId: int)
    ensures FirstWithId(a + b, partId) == if FirstWithId(a, partId).Some? then FirstWithId(a, partId) else FirstWithId(b, partId)
  {
    if a != [] {
      assert (a + b)[1..] == a[1..] + b;
      FirstWithIdConcat(a[1..], b, partId);
    } else {
      assert a + b == b;
    }
  }

  /** GetPart: the first direct part with the Id, else the first hit among the sub-assemblies. */
  function GetPart(t: AssemblyTree, partId: int): Option<PartEntity>
    decreases t
  {
    var direct := FirstWithId(t.parts, partId);
    if direct.Some? then direct else GetPartOf(t.subs, partId)
  }

  function GetPartOf(ts: seq<AssemblyTree>, partId: int): Option<PartEntity>
    decreases ts
  {
    if ts == [] then None
    else
      var hit := GetPart(ts[0], partId);
      if hit.Some? then hit else GetPartOf(ts[1..], partId)
  }

  /** GetPart finds the first element of GetAllParts with the Id. */
  lemma {:induction false} GetPartIsFirst(t: AssemblyTree, partId: int)
    ensures GetPart(t, partId) == FirstWithId(AllParts(t), partId)
    decreases t
  {
    GetPartOfIsFirst(t.subs, partId);
    FirstWithIdConcat(t.parts, AllPartsOf(t.subs), partId);
  }

  lemma {:induction false} GetPartOfIsFirst(ts: seq<AssemblyTree>, partId: int)
    ensures GetPartOf(ts, partId) == FirstWithId(AllPartsOf(ts), partId)
    decreases ts
  {
    if ts != [] {
      GetPartIsFirst(ts[0], partId);
      GetPartOfIsFirst(ts[1..], partId);
      FirstWithIdConcat(AllParts(ts[0]), AllPartsOf(ts[1..]), partId);
    }
  }

  /** Some part of the tree, direct or nested, satisfies the flag (HasGeometry, HasPhysics). */
  predicate AnyPart(t: AssemblyTree, flag: PartEntity -> bool)
    decreases t
  {
    (exists i :: 0 <= i < |t.parts| && flag(t.parts[i])) || AnyPartOf(t.subs, flag)
  }

  predicate AnyPartOf(ts: seq<AssemblyTree>, flag: PartEntity -> bool)
    decreases ts
  {
    ts != [] && (AnyPart(ts[0], flag) || AnyPartOf(ts[1..], flag))
  }

  predicate InSeq(ps: seq<PartEntity>, flag: PartEntity -> bool)
  {
    exists i :: 0 <= i < |ps| && flag(ps[i])
  }

  lemma InSeqConcat(a: seq<PartEntity>, b: seq<PartEntity>, flag: PartEntity -> bool)
    ensures InSeq(a + b, flag) <==> InSeq(a, flag) || InSeq(b, flag)
  {
    if InSeq(a + b, flag) {
      var i :| 0 <= i < |a + b| && flag((a + b)[i]);
      if i >= |a| {
        assert b[i - |a|] == (a + b)[i];
      }
    }
    if InSeq(a, flag) {
      var i :| 0 <= i < |a| && flag(a[i]);
      assert (a + b)[i] == a[i];
    }
    if InSeq(b, flag) {
      var i :| 0 <= i < |b| && flag(b[i]);
      assert (a + b)[|a| + i] == b[i];
    }
  }

  /** The recursive Any over parts and sub-assemblies asks the same as an Any over GetAllParts. */
  lemma {:induction false} AnyPartIff(t: AssemblyTree, flag: PartEntity -> bool)
    ensures AnyPart(t, flag) <==> InSeq(AllParts(t), flag)
    decreases t
  {
    AnyPartOfIff(t.subs, flag);
    InSeqConcat(t.parts, AllPartsOf(t.subs), flag);
  }

  lemma {:induction false} AnyPartOfIff(ts: seq<AssemblyTree>, flag: PartEntity -> bool)
    ensures AnyPartOf(ts, flag) <==> InSeq(AllPartsOf(ts), flag)
    decreases ts
  {
    if ts != [] {
      AnyPartIff(ts[0], flag);
      AnyPartOfIff(ts[1..], flag);
      InSeqConcat(AllParts(ts[0]), AllPartsOf(ts[1..]), flag);
    }
  }

  predicate HasGeometry(t: AssemblyTree) { AnyPart(t, (p: PartEntity) => p.hasValidGeometry) }
  predicate HasPhysics(t: AssemblyTree) { AnyPart(t, (p: PartEntity) => p.hasPhysics) }

  /** GetPhysicsParts: GetAllParts filtered by HasPhysics, in order. */
  function PhysicsParts(ps: seq<PartEntity>): (r: seq<PartEntity>)
    ensures forall p :: p in r <==> p in ps && p.hasPhysics
    ensures |r| <= |ps|
  {
    if ps == [] then []
    else (if ps[0].hasPhysics then [ps[0]] else []) + PhysicsParts(ps[1..])
  }

  /** The condition GetPhysicsParts filters by. */
  function WithPhysics(): PartEntity -> bool
  {
    (p: PartEntity) => p.hasPhysics
  }

  /** GetPhysicsParts is a Where over GetAllParts: the parts with physics, in order, repeats kept. */
  lemma {:induction false} PhysicsPartsInOrder(ps: seq<PartEntity>)
    ensures PhysicsParts(ps) == Where(ps, WithPhysics())
    ensures var pos := Positions(ps, WithPhysics());
      |PhysicsParts(ps)| == |pos| && forall k :: 0 <= k < |pos| ==> PhysicsParts(ps)[k] == ps[pos[k]]
  {
    if ps != [] {
      PhysicsPartsInOrder(ps[1..]);
    }
    WhereAtPositions(ps, WithPhysics());
  }

  // ---------------------------------------------------------------------
  // Validity and the cycle check
  // ---------------------------------------------------------------------

  function PartIds(ps: seq<PartEntity>): (r: seq<int>)
    ensures |r| == |ps| && forall i :: 0 <= i < |ps| ==> r[i] == ps[i].Id()
  {
    seq(|ps|, i requires 0 <= i < |ps| => ps[i].Id())
  }

  /**
   * HasCircularReference: walk the sub-assemblies in order with a set of visited
   * Ids; a sub-assembly whose Id is already visited is a cycle, otherwise its Id
   * is added for the walk below it and removed again afterwards.
   */
  predicate HasCircularReference(ts: seq<AssemblyTree>, visited: set<int>)
    decreases ts
  {
    ts != [] &&
    (ts[0].id in visited || HasCircularReference(ts[0].subs, visited + {ts[0].id}) || HasCircularReference(ts[1..], visited))
  }

  /**
   * The walk of HasCircularReference over one shared visited set: each Id is
   * added before the walk below it and removed after it, so a walk that finds
   * no cycle hands the set back unchanged.
   */
  method WalkSubAssemblies(ts: seq<AssemblyTree>, visited: set<int>) returns (found: bool, after: set<int>)
    ensures found == HasCircularReference(ts, visited)
    ensures !found ==> after == visited
    decreases ts
  {
    after := visited;
    var i := 0;
    while i < |ts|
      invariant 0 <= i <= |ts| && after == visited
      invariant HasCircularReference(ts, visited) == HasCircularReference(ts[i..], visited)
    {
      assert ts[i..][0] == ts[i] && ts[i..][1..] == ts[i + 1..];
      if ts[i].id in after {
        return true, after;
      }
      after := after + {ts[i].id};
      var below;
      below, after := WalkSubAssemblies(ts[i].subs, after);
      if below {
        return true, after;
      }
      after := after - {ts[i].id};
      i := i + 1;
    }
    return false, after;
  }

  /** IsValid: no part Id repeats among all parts, and no sub-assembly Id recurs below the root. */
  predicate IsValid(t: AssemblyTree)
  {
    Distinct(PartIds(AllParts(t))) && !HasCircularReference(t.subs, {t.id})
  }

  lemma {:induction false} HasCircularReferenceIff(ts: seq<AssemblyTree>, visited: set<int>)
    ensures HasCircularReference(ts, visited)
      <==> exists i :: 0 <= i < |ts| && (ts[i].id in visited || HasCircularReference(ts[i].subs, visited + {ts[i].id}))
  {
    if ts != [] {
      HasCircularReferenceIff(ts[1..], visited);
      assert forall i :: 1 <= i < |ts| ==> ts[1..][i - 1] == ts[i];
    }
  }

  /** A route picks a child index at each level, starting below the root. */
  predicate IsRoute(t: AssemblyTree, route: seq<nat>)
    decreases route
  {
    route == [] || (route[0] < |t.subs| && IsRoute(t.subs[route[0]], route[1..]))
  }

  /** The Ids of the sub-assemblies met along a route, the root excluded. */
  function RouteIds(t: AssemblyTree, route: seq<nat>): seq<int>
    requires IsRoute(t, route)
    decreases route
  {
    if route == [] then [] else [t.subs[route[0]].id] + RouteIds(t.subs[route[0]], route[1..])
  }

  /** The Ids along a route are all different and none is visited already. */
  predicate FreshIds(ids: seq<int>, visited: set<int>)
  {
    Distinct(ids) && forall k :: 0 <= k < |ids| ==> ids[k] !in visited
  }

  lemma FreshCons(x: int, ids: seq<int>, visited: set<int>)
    ensures FreshIds([x] + ids, visited) <==> x !in visited && FreshIds(ids, visited + {x})
  {
    var s := [x] + ids;
    assert forall k :: 1 <= k < |s| ==> s[k] == ids[k - 1];
    if FreshIds(s, visited) {
      forall i, j | 0 <= i < j < |ids| ensures ids[i] != ids[j] {
        assert s[i + 1] != s[j + 1];
      }
      forall k | 0 <= k < |ids| ensures ids[k] !in visited + {x} {
        assert s[k + 1] !in visited && s[0] != s[k + 1];
      }
      assert s[0] == x && x !in visited;
      assert FreshIds(ids, visited + {x});
    }
    if x !in visited && FreshIds(ids, visited + {x}) {
      forall i, j | 0 <= i < j < |s| ensures s[i] != s[j] {
        if i > 0 {
          assert s[i] == ids[i - 1] && s[j] == ids[j - 1];
        } else {
          assert s[j] == ids[j - 1] && ids[j - 1] !in visited + {x};
        }
      }
      forall k | 0 <= k < |s| ensures s[k] !in visited {
        if k > 0 {
          assert s[k] == ids[k - 1] && ids[k - 1] !in visited + {x};
        }
      }
    }
  }

  /** Without a reported cycle, every route meets fresh Ids. */
  lemma {:induction false} AcyclicRoutesFresh(t: AssemblyTree, visited: set<int>, route: seq<nat>)
    requires !HasCircularReference(t.subs, visited) && IsRoute(t, route)
    ensures FreshIds(RouteIds(t, route), visited)
    decreases route
  {
    if route != [] {
      var c := t.subs[route[0]];
      HasCircularReferenceIff(t.subs, visited);
      assert !(c.id in visited || HasCircularReference(c.subs, visited + {c.id}));
      AcyclicRoutesFresh(c, visited + {c.id}, route[1..]);
      FreshCons(c.id, RouteIds(c, route[1..]), visited);
    }
  }

  /** A reported cycle has a route that meets an Id twice or meets a visited one. */
  lemma {:induction false} CycleRoute(t: AssemblyTree, visited: set<int>) returns (route: seq<nat>)
    requires HasCircularReference(t.subs, visited)
    ensures IsRoute(t, route) && !FreshIds(RouteIds(t, route), visited)
    decreases t
  {
    HasCircularReferenceIff(t.subs, visited);
    var i :| 0 <= i < |t.subs| && (t.subs[i].id in visited || HasCircularReference(t.subs[i].subs, visited + {t.subs[i].id}));
    var c := t.subs[i];
    if c.id in visited {
      route := [i];
      assert route[1..] == [];
      assert RouteIds(t, route) == [c.id];
      assert RouteIds(t, route)[0] in visited;
    } else {
      var below := CycleRoute(c, visited + {c.id});
      route := [i] + below;
      assert route[0] == i && route[1..] == below;
      assert RouteIds(t, route) == [c.id] + RouteIds(c, below);
      FreshCons(c.id, RouteIds(c, below), visited);
    }
  }

  /** IsValid holds iff part Ids are unique and no route from the root meets the root's or another Id twice. */
  lemma IsValidIff(t: AssemblyTree)
    ensures IsValid(t) <==> Distinct(PartIds(AllParts(t))) && forall route :: IsRoute(t, route) ==> FreshIds(RouteIds(t, route), {t.id})
  {
    if HasCircularReference(t.subs, {t.id}) {
      var route := CycleRoute(t, {t.id});
    } else {
      forall route | IsRoute(t, route) ensures FreshIds(RouteIds(t, route), {t.id}) {
        AcyclicRoutesFresh(t, {t.id}, route);
      }
    }
  }

  // ---------------------------------------------------------------------
  // The Assembly entity
  // ---------------------------------------------------------------------

  const NameEmptyMessage := "Name cannot be empty"
  const SelfSubAssemblyMessage := "Cannot add self as sub-assembly"

  /** The name a new assembly gets when none is given. */
  function DefaultName(id: int): string
  {
    "Assembly_" + IntToString(id)
  }

  /** Entity.Equals between two parts, as List.Remove compares them. */
  predicate SamePart(a: PartEntity, b: PartEntity)
  {
    Entities.Equals(a.entity, Ent(b.entity))
  }

  /** The index List.Remove removes: the first element equal to the part. */
  function FirstEqual(ps: seq<PartEntity>, part: PartEntity): (r: Option<nat>)
    ensures r.None? <==> forall i :: 0 <= i < |ps| ==> !SamePart(ps[i], part)
    ensures r.Some? ==> r.value < |ps| && SamePart(ps[r.value], part)
                          && forall j :: 0 <= j < r.value ==> !SamePart(ps[j], part)
  {
    if ps == [] then None
    else if SamePart(ps[0], part) then Some(0)
    else
      var r := FirstEqual(ps[1..], part);
      assert forall i :: 1 <= i < |ps| ==> ps[1..][i - 1] == ps[i];
      if r.Some? then Some(r.value + 1) else None
  }

  /** The parts are Part entities, and one reference never stands for two different entities. */
  predicate Coherent(ps: seq<PartEntity>, part: PartEntity)
  {
    (forall i :: 0 <= i < |ps| ==> ps[i].entity.kind == PartKind && SameObjectAgrees(ps[i].entity, part.entity))
    && part.entity.kind == PartKind
  }

  /** The part RemovePart(int) finds is present by Entity equality, and for coherent parts it sits at the first index with the Id. */
  lemma RemovedIsFirstId(ps: seq<PartEntity>, partId: int)
    requires FirstWithId(ps, partId).Some?
    ensures FirstEqual(ps, FirstWithId(ps, partId).value).Some?
    ensures Coherent(ps, FirstWithId(ps, partId).value) ==>
              var k := FirstEqual(ps, FirstWithId(ps, partId).value).value;
              ps[k].Id() == partId && forall j :: 0 <= j < k ==> ps[j].Id() != partId
  {
    var found := FirstWithId(ps, partId);
    var i :| 0 <= i < |ps| && ps[i] == found.value && found.value.Id() == partId
               && forall j :: 0 <= j < i ==> ps[j].Id() != partId;
    assert SamePart(ps[i], found.value);
    if Coherent(ps, found.value) {
      FirstEqualIsFirstId(ps, found.value);
      assert FirstEqual(ps, found.value).value == i;
    }
  }

  /** For coherent parts, Entity equality is equality of Ids: List.Remove removes the first part with the Id. */
  lemma FirstEqualIsFirstId(ps: seq<PartEntity>, part: PartEntity)
    requires Coherent(ps, part)
    ensures forall i :: 0 <= i < |ps| ==> (SamePart(ps[i], part) <==> ps[i].Id() == part.Id())
    ensures FirstEqual(ps, part).None? <==> FirstWithId(ps, part.Id()).None?
    ensures FirstEqual(ps, part).Some? ==> ps[FirstEqual(ps, part).value] == FirstWithId(ps, part.Id()).value
  {
    var r := FirstWithId(ps, part.Id());
    var e := FirstEqual(ps, part);
    if r.Some? {
      var i :| 0 <= i < |ps| && ps[i] == r.value && r.value.Id() == part.Id() && forall j :: 0 <= j < i ==> ps[j].Id() != part.Id();
      assert SamePart(ps[i], part);
      assert e.value == i;
    }
  }

  /** The index List.Remove removes from the sub-assemblies: Entity equality of assemblies, that is the first with the Id. */
  function FirstSubWithId(ts: seq<AssemblyTree>, id: int): (r: Option<nat>)
    ensures r.None? <==> forall i :: 0 <= i < |ts| ==> ts[i].id != id
    ensures r.Some? ==> r.value < |ts| && ts[r.value].id == id && forall j :: 0 <= j < r.value ==> ts[j].id != id
  {
    if ts == [] then None
    else if ts[0].id == id then Some(0)
    else
      var r := FirstSubWithId(ts[1..], id);
      assert forall i :: 1 <= i < |ts| ==> ts[1..][i - 1] == ts[i];
      if r.Some? then Some(r.value + 1) else None
  }

  class Assembly {
    const id: int
    var name: string
    var description: Option<string>
    var parts: seq<PartEntity>
    var subAssemblies: seq<AssemblyTree>

    /** new Assembly(id, name, description): a missing name becomes "Assembly_{id}". */
    constructor(id: int, name: Option<string>, description: Option<string>)
      ensures this.id == id && this.description == description
      ensures this.name == if name.None? then DefaultName(id) else name.value
      ensures parts == [] && subAssemblies == []
    {
      this.id := id;
      this.name := if name.None? then DefaultName(id) else name.value;
      this.description := description;
      parts := [];
      subAssemblies := [];
    }

    /** The assembly's current state as a tree. */
    function Snapshot(): AssemblyTree
      reads this
    {
      AssemblyTree(id, name, description, parts, subAssemblies)
    }

    function TotalCount(): nat
      reads this
    {
      TotalPartCount(Snapshot())
    }

    function Find(partId: int): Option<PartEntity>
      reads this
    {
      GetPart(Snapshot(), partId)
    }

    /** IsValid: the duplicate-Id test on GetAllParts, then the cycle walk seeded with this Id. */
    method CheckValid() returns (ok: bool)
      ensures ok == IsValid(Snapshot())
    {
      if !Distinct(PartIds(AllParts(Snapshot()))) {
        return false;
      }
      var cyclic, _ := WalkSubAssemblies(subAssemblies, {id});
      return !cyclic;
    }

    /** UpdateName: a null or white-space name is rejected and nothing changes. */
    method UpdateName(newName: Option<string>) returns (err: Option<Exception>)
      modifies this
      ensures err.Some? <==> newName.None? || IsBlank(newName.value)
      ensures err.Some? ==> err.value == ArgumentException(WithParameter(NameEmptyMessage, "name")) && name == old(name)
      ensures err.None? ==> name == newName.value
      ensures description == old(description) && parts == old(parts) && subAssemblies == old(subAssemblies)
    {
      if newName.None? || IsBlank(newName.value) {
        return Some(ArgumentException(WithParameter(NameEmptyMessage, "name")));
      }
      name := newName.value;
      return None;
    }

    method UpdateDescription(newDescription: Option<string>)
      modifies this
      ensures description == newDescription
      ensures name == old(name) && parts == old(parts) && subAssemblies == old(subAssemblies)
    {
      description := newDescription;
    }

    /** AddPart: a null part is rejected; otherwise it is appended. */
    method AddPart(part: Option<PartEntity>) returns (err: Option<Exception>)
      modifies this
      ensures err.Some? <==> part.None?
      ensures err.Some? ==> err.value == ArgumentNullException("part") && parts == old(parts)
      ensures err.None? ==> parts == old(parts) + [part.value]
      ensures name == old(name) && description == old(description) && subAssemblies == old(subAssemblies)
    {
      if part.None? {
        return Some(ArgumentNullException("part"));
      }
      parts := parts + [part.value];
      return None;
    }

    /** RemovePart(Part): List.Remove of the first equal part; null is never in the list. */
    method RemovePart(part: Option<PartEntity>) returns (removed: bool)
      modifies this
      ensures removed <==> part.Some? && FirstEqual(old(parts), part.value).Some?
      ensures !removed ==> parts == old(parts)
      ensures removed ==> var k := FirstEqual(old(parts), part.value).value; parts == old(parts)[..k] + old(parts)[k + 1..]
      ensures name == old(name) && description == old(description) && subAssemblies == old(subAssemblies)
    {
      if part.None? {
        return false;
      }
      var k := FirstEqual(parts, part.value);
      if k.None? {
        return false;
      }
      parts := parts[..k.value] + parts[k.value + 1..];
      return true;
    }

    /** RemovePart(int): find the first part with the Id, then remove it as RemovePart(Part) does. */
    method RemovePartById(partId: int) returns (removed: bool)
      modifies this
      ensures removed <==> FirstWithId(old(parts), partId).Some?
      ensures !removed ==> parts == old(parts)
      ensures removed ==> var k := FirstEqual(old(parts), FirstWithId(old(parts), partId).value).value;
                            parts == old(parts)[..k] + old(parts)[k + 1..]
      ensures removed && Coherent(old(parts), FirstWithId(old(parts), partId).value) ==>
                exists k :: 0 <= k < |old(parts)| && old(parts)[k].Id() == partId
                  && (forall j :: 0 <= j < k ==> old(parts)[j].Id() != partId)
                  && parts == old(parts)[..k] + old(parts)[k + 1..]
      ensures name == old(name) && description == old(description) && subAssemblies == old(subAssemblies)
    {
      var found := FirstWithId(parts, partId);
      if found.None? {
        return false;
      }
      RemovedIsFirstId(parts, partId);
      var k := FirstEqual(parts, found.value);
      parts := parts[..k.value] + parts[k.value + 1..];
      return true;
    }

    /** AddSubAssembly: null and an assembly with this Id are rejected; otherwise its state is appended. */
    method AddSubAssembly(sub: Assembly?) returns (err: Option<Exception>)
      modifies this
      ensures err.Some? <==> sub == null || sub.id == id
      ensures sub == null ==> err == Some(ArgumentNullException("subAssembly"))
      ensures sub != null && sub.id == id ==> err == Some(ArgumentException(SelfSubAssemblyMessage))
      ensures err.Some? ==> subAssemblies == old(subAssemblies)
      ensures err.None? ==> subAssemblies == old(subAssemblies) + [old(sub.Snapshot())]
      ensures name == old(name) && description == old(description) && parts == old(parts)
    {
      if sub == null {
        return Some(ArgumentNullException("subAssembly"));
      }
      if sub.id == id {
        return Some(ArgumentException(SelfSubAssemblyMessage));
      }
      subAssemblies := subAssemblies + [sub.Snapshot()];
      return None;
    }

    /** RemoveSubAssembly: List.Remove of the first sub-assembly equal to the given one, that is with its Id. */
    method RemoveSubAssembly(sub: Assembly?) returns (removed: bool)
      modifies this
      ensures removed <==> sub != null && exists i :: 0 <= i < |old(subAssemblies)| && old(subAssemblies)[i].id == sub.id
      ensures !removed ==> subAssemblies == old(subAssemblies)
      ensures removed ==> exists k :: 0 <= k < |old(subAssemblies)| && old(subAssemblies)[k].id == sub.id
                            && (forall j :: 0 <= j < k ==> old(subAssemblies)[j].id != sub.id)
                            && subAssemblies == old(subAssemblies)[..k] + old(subAssemblies)[k + 1..]
      ensures name == old(name) && description == old(description) && parts == old(parts)
    {
      if sub == null {
        return false;
      }
      var k := FirstSubWithId(subAssemblies, sub.id);
      if k.None? {
        return false;
      }
      subAssemblies := subAssemblies[..k.value] + subAssemblies[k.value + 1..];
      return true;
    }
  }
}
