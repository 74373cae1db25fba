// The immutable records of the domain model (geometry primitives, parts,
// joints, assemblies, plan steps and plans) with the argument checks their
// constructors make, and the axis-aligned bounding box derived from vertices.
module DomainModel {
  import opened Common

  // ---------------------------------------------------------------------
  // Spatial values
  // ---------------------------------------------------------------------

  datatype Point3d = Point3d(x: real, y: real, z: real)

  datatype Vector3d = Vector3d(x: real, y: real, z: real)

  datatype BoundingBox = BoundingBox(min: Point3d, max: Point3d)

  datatype Axis = X | Y | Z

  function Coord(p: Point3d, axis: Axis): real
  {
    match axis
    case X => p.x
    case Y => p.y
    case Z => p.z
  }

  function Coords(points: seq<Point3d>, axis: Axis): (r: seq<real>)
    ensures |r| == |points|
    ensures forall i :: 0 <= i < |points| ==> r[i] == Coord(points[i], axis)
  {
    seq(|points|, i requires 0 <= i < |points| => Coord(points[i], axis))
  }

  /** Enumerable.Min over a non-empty sequence of numbers. */
  function Least(xs: seq<real>): (r: real)
    requires |xs| > 0
    ensures r in xs
    ensures forall i :: 0 <= i < |xs| ==> r <= xs[i]
  {
    if |xs| == 1 then xs[0]
    else
      var m := Least(xs[1..]);
      assert forall i :: 1 <= i < |xs| ==> xs[i] == xs[1..][i - 1];
      if xs[0] <= m then xs[0] else m
  }

  /** Enumerable.Max over a non-empty sequence of numbers. */
  function Greatest(xs: seq<real>): (r: real)
    requires |xs| > 0
    ensures r in xs
    ensures forall i :: 0 <= i < |xs| ==> xs[i] <= r
  {
    if |xs| == 1 then xs[0]
    else
      var m := Greatest(xs[1..]);
      assert forall i :: 1 <= i < |xs| ==> xs[i] == xs[1..][i - 1];
      if m <= xs[0] then xs[0] else m
  }

  predicate Encloses(box: BoundingBox, p: Point3d)
  {
    forall axis :: Coord(box.min, axis) <= Coord(p, axis) <= Coord(box.max, axis)
  }

  predicate EnclosesAll(box: BoundingBox, points: seq<Point3d>)
  {
    forall i :: 0 <= i < |points| ==> Encloses(box, points[i])
  }

  /** Every face of the box touches one of the points. */
  predicate Tight(box: BoundingBox, points: seq<Point3d>)
  {
    forall axis :: Coord(box.min, axis) in Coords(points, axis) && Coord(box.max, axis) in Coords(points, axis)
  }

  const NoPointsMessage := "At least one point is required to create a bounding box."

  /** The per-axis minimum and maximum of a non-empty sequence of points. */
  function BoxOf(ps: seq<Point3d>): BoundingBox
    requires |ps| > 0
  {
    BoundingBox(
      Point3d(Least(Coords(ps, X)), Least(Coords(ps, Y)), Least(Coords(ps, Z))),
      Point3d(Greatest(Coords(ps, X)), Greatest(Coords(ps, Y)), Greatest(Coords(ps, Z))))
  }

  lemma BoxOfAxis(ps: seq<Point3d>, axis: Axis)
    requires |ps| > 0
    ensures Coord(BoxOf(ps).min, axis) == Least(Coords(ps, axis))
    ensures Coord(BoxOf(ps).max, axis) == Greatest(Coords(ps, axis))
  {
    match axis
    case X =>
    case Y =>
    case Z =>
  }

  lemma BoxOfEncloses(ps: seq<Point3d>)
    requires |ps| > 0
    ensures EnclosesAll(BoxOf(ps), ps) && Tight(BoxOf(ps), ps)
  {
    forall axis
      ensures Coord(BoxOf(ps).min, axis) == Least(Coords(ps, axis))
      ensures Coord(BoxOf(ps).max, axis) == Greatest(Coords(ps, axis))
    {
      BoxOfAxis(ps, axis);
    }
    forall i | 0 <= i < |ps|
      ensures Encloses(BoxOf(ps), ps[i])
    {
      forall axis
        ensures Coord(BoxOf(ps).min, axis) <= Coord(ps[i], axis) <= Coord(BoxOf(ps).max, axis)
      {
        assert Coords(ps, axis)[i] == Coord(ps[i], axis);
      }
    }
  }

  /** BoundingBox.FromPoints: the per-axis minimum and maximum of the points. */
  function FromPoints(points: Option<seq<Point3d>>): (r: Result<BoundingBox, Exception>)
    ensures points.None? ==> r == Err(ArgumentNullException("points"))
    ensures points == Some([]) ==> r == Err(ArgumentException(WithParameter(NoPointsMessage, "points")))
    ensures r.Ok? <==> points.Some? && |points.value| > 0
    ensures r.Ok? ==> EnclosesAll(r.value, points.value) && Tight(r.value, points.value)
  {
    if points.None? then Err(ArgumentNullException("points"))
    else if |points.value| == 0 then Err(ArgumentException(WithParameter(NoPointsMessage, "points")))
    else
      BoxOfEncloses(points.value);
      Ok(BoxOf(points.value))
  }

  /** No box that encloses the points is smaller than the one FromPoints derives. */
  lemma FromPointsSmallest(points: seq<Point3d>, other: BoundingBox, axis: Axis)
    requires |points| > 0 && EnclosesAll(other, points)
    ensures Coord(other.min, axis) <= Coord(FromPoints(Some(points)).value.min, axis)
    ensures Coord(FromPoints(Some(points)).value.max, axis) <= Coord(other.max, axis)
  {
    var box := FromPoints(Some(points)).value;
    var cs := Coords(points, axis);
    assert Coord(box.min, axis) in cs && Coord(box.max, axis) in cs;
    var i :| 0 <= i < |cs| && cs[i] == Coord(box.min, axis);
    var j :| 0 <= j < |cs| && cs[j] == Coord(box.max, axis);
    assert Encloses(other, points[i]) && Encloses(other, points[j]);
  }

  // ---------------------------------------------------------------------
  // Argument checks
  // ---------------------------------------------------------------------

  const EmptyStringMessage := "The value cannot be an empty string."

  /** A string argument that is neither null nor empty. */
  predicate Present(s: Option<string>)
  {
    s.Some? && s.value != []
  }

  /** ArgumentException.ThrowIfNullOrEmpty: the exception thrown for the argument, if any. */
  function NullOrEmptyError(s: Option<string>, paramName: string): (r: Option<Exception>)
    ensures r.None? <==> Present(s)
    ensures s.None? ==> r == Some(ArgumentNullException(paramName))
    ensures s == Some([]) ==> r == Some(ArgumentException(WithParameter(EmptyStringMessage, paramName)))
  {
    if s.None? then Some(ArgumentNullException(paramName))
    else if s.value == [] then Some(ArgumentException(WithParameter(EmptyStringMessage, paramName)))
    else None
  }

  // ---------------------------------------------------------------------
  // Geometry primitives
  // ---------------------------------------------------------------------

  datatype PrimitiveType = PointPrimitive | LinePrimitive | FacePrimitive

  datatype GeometryPrimitive = GeometryPrimitive(
    id: string, primitiveType: PrimitiveType, vertices: seq<Point3d>, boundingBox: BoundingBox)

  /** What every constructed primitive satisfies. */
  predicate ValidPrimitive(g: GeometryPrimitive)
  {
    && g.id != []
    && |g.vertices| > 0
    && EnclosesAll(g.boundingBox, g.vertices)
    && Tight(g.boundingBox, g.vertices)
  }

  const NoVertexMessage := "A primitive requires at least one vertex."

  /** The GeometryPrimitive constructor. */
  function NewGeometryPrimitive(id: Option<string>, primitiveType: PrimitiveType, vertices: Option<seq<Point3d>>)
    : (r: Result<GeometryPrimitive, Exception>)
    ensures r.Ok? <==> Present(id) && vertices.Some? && |vertices.value| > 0
    ensures !Present(id) ==> r == Err(NullOrEmptyError(id, "id").value)
    ensures Present(id) && vertices.None? ==> r == Err(ArgumentNullException("vertices"))
    ensures Present(id) && vertices == Some([]) ==> r == Err(ArgumentException(WithParameter(NoVertexMessage, "vertices")))
    ensures r.Ok? ==> ValidPrimitive(r.value) && r.value.id == id.value
    ensures r.Ok? ==> r.value.primitiveType == primitiveType && r.value.vertices == vertices.value
  {
    if !Present(id) then Err(NullOrEmptyError(id, "id").value)
    else if vertices.None? then Err(ArgumentNullException("vertices"))
    else if vertices.value == [] then Err(ArgumentException(WithParameter(NoVertexMessage, "vertices")))
    else Ok(GeometryPrimitive(id.value, primitiveType, vertices.value, FromPoints(vertices).value))
  }

  // ---------------------------------------------------------------------
  // Parts
  // ---------------------------------------------------------------------

  /**
   * The array that Part.Geometry refers to. Record equality compares this list
   * by reference, so two parts with the same content are equal only when they
   * share it. A null list becomes the shared Array.Empty, an empty one the
   * shared empty array of ImmutableArray, and any other list the array that
   * ToImmutableArray returns: a fresh copy, or the argument's own array when
   * it already is an ImmutableArray.
   */
  datatype GeometryArray = EmptyArray | EmptyImmutableArray | Allocated(handle: nat)

  datatype Part = Part(
    id: string, name: string, mass: Double, centerOfMass: Point3d,
    geometry: seq<GeometryPrimitive>, geometryArray: GeometryArray, boundingBox: BoundingBox)

  /** Geometry.SelectMany(p => p.Vertices). */
  function AllVertices(geometry: seq<GeometryPrimitive>): seq<Point3d>
  {
    if geometry == [] then [] else geometry[0].vertices + AllVertices(geometry[1..])
  }

  lemma {:induction false} AllVerticesContains(geometry: seq<GeometryPrimitive>, k: nat, i: nat)
    requires k < |geometry| && i < |geometry[k].vertices|
    ensures geometry[k].vertices[i] in AllVertices(geometry)
  {
    if k > 0 {
      AllVerticesContains(geometry[1..], k - 1, i);
    }
  }

  lemma {:induction false} AllVerticesNonEmpty(geometry: seq<GeometryPrimitive>)
    requires geometry != [] && ValidPrimitive(geometry[0])
    ensures |AllVertices(geometry)| > 0
  {
  }

  predicate AllValidPrimitives(geometry: seq<GeometryPrimitive>)
  {
    forall i :: 0 <= i < |geometry| ==> ValidPrimitive(geometry[i])
  }

  /** The box of a part: degenerate at the centre of mass without geometry, else the box of all vertices. */
  predicate PartBoxOf(box: BoundingBox, centerOfMass: Point3d, geometry: seq<GeometryPrimitive>)
  {
    if geometry == [] then box == BoundingBox(centerOfMass, centerOfMass)
    else EnclosesAll(box, AllVertices(geometry)) && Tight(box, AllVertices(geometry))
  }

  /** What every constructed part satisfies: the mass passed the `mass <= 0` guard. */
  predicate ValidPart(p: Part)
  {
    && p.id != [] && p.name != [] && !Le(p.mass, Finite(0.0))
    && AllValidPrimitives(p.geometry)
    && PartBoxOf(p.boundingBox, p.centerOfMass, p.geometry)
  }

  const MassMessage := "Mass must be positive."

  /** The array a part built from this geometry argument refers to; `allocation` is the one ToImmutableArray returns. */
  function GeometryArrayOf(geometry: Option<seq<GeometryPrimitive>>, allocation: nat): GeometryArray
  {
    if geometry.None? then EmptyArray
    else if geometry.value == [] then EmptyImmutableArray
    else Allocated(allocation)
  }

  /**
   * The Part constructor. Primitives can only exist in their validated form,
   * which the precondition restates. The mass guard is the IEEE `<=`, which
   * is false for NaN.
   */
  function NewPart(
    id: Option<string>, name: Option<string>, mass: Double, centerOfMass: Point3d,
    geometry: Option<seq<GeometryPrimitive>>, allocation: nat): (r: Result<Part, Exception>)
    requires geometry.Some? ==> AllValidPrimitives(geometry.value)
    ensures r.Ok? <==> Present(id) && Present(name) && !Le(mass, Finite(0.0))
    ensures !Present(id) ==> r == Err(NullOrEmptyError(id, "id").value)
    ensures Present(id) && !Present(name) ==> r == Err(NullOrEmptyError(name, "name").value)
    ensures Present(id) && Present(name) && Le(mass, Finite(0.0)) ==>
              r == Err(ArgumentOutOfRangeException("mass", MassMessage))
    ensures r.Ok? ==> ValidPart(r.value)
    ensures r.Ok? ==> r.value.id == id.value && r.value.name == name.value && r.value.mass == mass
    ensures r.Ok? ==> r.value.centerOfMass == centerOfMass
    ensures r.Ok? ==> r.value.geometry == (if geometry.None? then [] else geometry.value)
    ensures r.Ok? ==> r.value.geometryArray == GeometryArrayOf(geometry, allocation)
  {
    if !Present(id) then Err(NullOrEmptyError(id, "id").value)
    else if !Present(name) then Err(NullOrEmptyError(name, "name").value)
    else if Le(mass, Finite(0.0)) then Err(ArgumentOutOfRangeException("mass", MassMessage))
    else
      var g := if geometry.None? then [] else geometry.value;
      var box :=
        if g == [] then BoundingBox(centerOfMass, centerOfMass)
        else (AllVerticesNonEmpty(g); FromPoints(Some(AllVertices(g))).value);
      Ok(Part(id.value, name.value, mass, centerOfMass, g, GeometryArrayOf(geometry, allocation), box))
  }

  /** Away from NaN the mass guard admits exactly the positive masses. */
  lemma NewPartMassPositive(id: string, name: string, mass: Double, centerOfMass: Point3d)
    requires id != [] && name != [] && !mass.NaN?
    ensures NewPart(Some(id), Some(name), mass, centerOfMass, None, 0).Ok? <==> Lt(Finite(0.0), mass)
  {
  }

  /** A NaN mass passes the guard, so a part with mass NaN is built. */
  lemma NaNMassAccepted(id: string, name: string, centerOfMass: Point3d)
    requires id != [] && name != []
    ensures NewPart(Some(id), Some(name), NaN, centerOfMass, None, 0).Ok?
    ensures NewPart(Some(id), Some(name), NaN, centerOfMass, None, 0).value.mass == NaN
  {
  }

  /** The box of a constructed part encloses every vertex of every one of its primitives. */
  lemma PartBoxEnclosesGeometry(p: Part, k: nat, i: nat)
    requires ValidPart(p)
    requires k < |p.geometry| && i < |p.geometry[k].vertices|
    ensures Encloses(p.boundingBox, p.geometry[k].vertices[i])
  {
    AllVerticesContains(p.geometry, k, i);
    var vs := AllVertices(p.geometry);
    var j :| 0 <= j < |vs| && vs[j] == p.geometry[k].vertices[i];
  }

  // ---------------------------------------------------------------------
  // Joints
  // ---------------------------------------------------------------------

  datatype Joint = Joint(id: string, partA: string, partB: string, jointType: string)

  predicate ValidJoint(j: Joint)
  {
    j.id != [] && j.partA != [] && j.partB != [] && !IsBlank(j.jointType)
  }

  /** The Joint constructor: a null or blank type is recorded as "unknown". */
  function NewJoint(id: Option<string>, partA: Option<string>, partB: Option<string>, jointType: Option<string>)
    : (r: Result<Joint, Exception>)
    ensures r.Ok? <==> Present(id) && Present(partA) && Present(partB)
    ensures !Present(id) ==> r == Err(NullOrEmptyError(id, "id").value)
    ensures Present(id) && !Present(partA) ==> r == Err(NullOrEmptyError(partA, "partA").value)
    ensures Present(id) && Present(partA) && !Present(partB) ==> r == Err(NullOrEmptyError(partB, "partB").value)
    ensures r.Ok? ==> ValidJoint(r.value)
    ensures r.Ok? ==> r.value.id == id.value && r.value.partA == partA.value && r.value.partB == partB.value
    ensures r.Ok? && jointType.Some? && !IsBlank(jointType.value) ==> r.value.jointType == jointType.value
    ensures r.Ok? && (jointType.None? || IsBlank(jointType.value)) ==> r.value.jointType == "unknown"
  {
    if !Present(id) then Err(NullOrEmptyError(id, "id").value)
    else if !Present(partA) then Err(NullOrEmptyError(partA, "partA").value)
    else if !Present(partB) then Err(NullOrEmptyError(partB, "partB").value)
    else
      var t := if jointType.None? || IsBlank(jointType.value) then "unknown" else jointType.value;
      assert !IsDotNetWhiteSpace("unknown"[0]);
      Ok(Joint(id.value, partA.value, partB.value, t))
  }

  /** Rebuilding a joint from its own fields gives the same joint: the type normalisation is idempotent. */
  lemma NewJointIdempotent(j: Joint)
    requires ValidJoint(j)
    ensures NewJoint(Some(j.id), Some(j.partA), Some(j.partB), Some(j.jointType)) == Ok(j)
  {
  }

  // ---------------------------------------------------------------------
  // Assemblies
  // ---------------------------------------------------------------------

  datatype Assembly = Assembly(id: string, parts: seq<Part>, joints: seq<Joint>, metadata: map<string, string>)

  predicate ValidAssembly(a: Assembly)
  {
    && a.id != []
    && (forall i :: 0 <= i < |a.parts| ==> ValidPart(a.parts[i]))
    && (forall i :: 0 <= i < |a.joints| ==> ValidJoint(a.joints[i]))
  }

  /** The Assembly constructor: metadata defaults to an empty dictionary. */
  function NewAssembly(
    id: Option<string>, parts: Option<seq<Part>>, joints: Option<seq<Joint>>,
    metadata: Option<map<string, string>>): (r: Result<Assembly, Exception>)
    ensures r.Ok? <==> Present(id) && parts.Some? && joints.Some?
    ensures !Present(id) ==> r == Err(NullOrEmptyError(id, "id").value)
    ensures Present(id) && parts.None? ==> r == Err(ArgumentNullException("parts"))
    ensures Present(id) && parts.Some? && joints.None? ==> r == Err(ArgumentNullException("joints"))
    ensures r.Ok? ==> r.value.id == id.value && r.value.parts == parts.value && r.value.joints == joints.value
    ensures r.Ok? && metadata.None? ==> r.value.metadata == map[]
    ensures r.Ok? && metadata.Some? ==> r.value.metadata == metadata.value
  {
    if !Present(id) then Err(NullOrEmptyError(id, "id").value)
    else if parts.None? then Err(ArgumentNullException("parts"))
    else if joints.None? then Err(ArgumentNullException("joints"))
    else Ok(Assembly(id.value, parts.value, joints.value, if metadata.None? then map[] else metadata.value))
  }

  /** An assembly built from constructed parts and joints is valid. */
  lemma NewAssemblyValid(id: string, parts: seq<Part>, joints: seq<Joint>, metadata: Option<map<string, string>>)
    requires id != []
    requires forall i :: 0 <= i < |parts| ==> ValidPart(parts[i])
    requires forall i :: 0 <= i < |joints| ==> ValidJoint(joints[i])
    ensures NewAssembly(Some(id), Some(parts), Some(joints), metadata).Ok?
    ensures ValidAssembly(NewAssembly(Some(id), Some(parts), Some(joints), metadata).value)
  {
  }

  predicate Touches(j: Joint, partId: string)
  {
    j.partA == partId || j.partB == partId
  }

  /** Joints.Where(j => j.PartA == partId || j.PartB == partId), in joint order. */
  function JointsOf(joints: seq<Joint>, partId: string): (r: seq<Joint>)
    ensures |r| <= |joints|
    ensures forall j :: j in r <==> j in joints && Touches(j, partId)
    ensures forall k :: 0 <= k < |r| ==> Touches(r[k], partId)
  {
    if joints == [] then []
    else
      var rest := JointsOf(joints[1..], partId);
      assert forall j :: j in joints <==> j == joints[0] || j in joints[1..];
      if Touches(joints[0], partId) then [joints[0]] + rest else rest
  }

  function JointsFor(a: Assembly, partId: string): (r: seq<Joint>)
    ensures forall j :: j in r <==> j in a.joints && (j.partA == partId || j.partB == partId)
  {
    JointsOf(a.joints, partId)
  }

  /** The condition JointsFor filters by. */
  function TouchesPart(partId: string): Joint -> bool
  {
    (j: Joint) => Touches(j, partId)
  }

  lemma {:induction false} JointsOfInOrder(joints: seq<Joint>, partId: string)
    ensures JointsOf(joints, partId) == Where(joints, TouchesPart(partId))
  {
    if joints != [] {
      JointsOfInOrder(joints[1..], partId);
    }
  }

  /** JointsFor is Joints.Where: the joints touching the part, in joint order, repeats kept. */
  lemma JointsForInOrder(a: Assembly, partId: string)
    ensures JointsFor(a, partId) == Where(a.joints, TouchesPart(partId))
    ensures var pos := Positions(a.joints, TouchesPart(partId));
      |JointsFor(a, partId)| == |pos| && forall k :: 0 <= k < |pos| ==> JointsFor(a, partId)[k] == a.joints[pos[k]]
  {
    JointsOfInOrder(a.joints, partId);
    WhereAtPositions(a.joints, TouchesPart(partId));
  }

  /** A joint is listed for both of its endpoints. */
  lemma JointsForBothEnds(a: Assembly, k: nat)
    requires k < |a.joints|
    ensures a.joints[k] in JointsFor(a, a.joints[k].partA)
    ensures a.joints[k] in JointsFor(a, a.joints[k].partB)
  {
  }

  // ---------------------------------------------------------------------
  // The part lookup
  // ---------------------------------------------------------------------

  function DuplicateKeyMessage(key: string): string
  {
    "An element with the same key but a different value already exists. Key: '" + key + "'"
  }

  /** Two parts share an id but differ in some other field. */
  predicate Conflicting(parts: seq<Part>)
  {
    exists i, j :: 0 <= i < j < |parts| && parts[i].id == parts[j].id && parts[i] != parts[j]
  }

  function PartIdSet(parts: seq<Part>): set<string>
  {
    set i | 0 <= i < |parts| :: parts[i].id
  }

  /**
   * Parts.ToImmutableDictionary(p => p.Id). Adding a key already present is accepted
   * only when the value is equal to the stored one.
   */
  function PartLookupOf(parts: seq<Part>): (r: Result<map<string, Part>, Exception>)
    ensures r.Err? ==> r.error.ArgumentException?
    ensures r.Ok? ==> r.value.Keys == PartIdSet(parts)
    ensures r.Ok? ==> forall id :: id in r.value ==> r.value[id].id == id && r.value[id] in parts
    decreases |parts|
  {
    if parts == [] then Ok(map[])
    else
      var init := parts[..|parts| - 1];
      var p := parts[|parts| - 1];
      PartIdSetSnoc(parts);
      match PartLookupOf(init)
      case Err(e) => Err(e)
      case Ok(m) =>
        if p.id in m && m[p.id] != p then Err(ArgumentException(DuplicateKeyMessage(p.id)))
        else Ok(m[p.id := p])
  }

  lemma PartIdSetSnoc(parts: seq<Part>)
    requires parts != []
    ensures forall i :: 0 <= i < |parts| - 1 ==> parts[..|parts| - 1][i] == parts[i]
    ensures PartIdSet(parts) == PartIdSet(parts[..|parts| - 1]) + {parts[|parts| - 1].id}
  {
    var init := parts[..|parts| - 1];
    assert forall i :: 0 <= i < |init| ==> init[i] == parts[i];
  }

  lemma ConflictPair(parts: seq<Part>, i: nat, j: nat)
    requires i < |parts| && j < |parts| && i != j
    requires parts[i].id == parts[j].id && parts[i] != parts[j]
    ensures Conflicting(parts)
  {
    if j < i {
      assert parts[j].id == parts[i].id && parts[j] != parts[i];
    }
  }

  /** The lookup fails exactly when two parts share an id but differ. */
  lemma {:induction false} PartLookupOkIff(parts: seq<Part>)
    ensures PartLookupOf(parts).Ok? <==> !Conflicting(parts)
    decreases |parts|
  {
    if parts != [] {
      var init := parts[..|parts| - 1];
      PartLookupOkIff(init);
      match PartLookupOf(init)
      case Err(_) =>
        ConflictExtends(parts);
      case Ok(m) =>
        var p := parts[|parts| - 1];
        if p.id in m && m[p.id] != p {
          ConflictRejected(parts, m);
        } else {
          ConflictAccepted(parts, m);
        }
    }
  }

  lemma ConflictExtends(parts: seq<Part>)
    requires parts != [] && Conflicting(parts[..|parts| - 1])
    ensures Conflicting(parts)
  {
    var init := parts[..|parts| - 1];
    var i, j :| 0 <= i < j < |init| && init[i].id == init[j].id && init[i] != init[j];
    PartIdSetSnoc(parts);
    ConflictPair(parts, i, j);
  }

  lemma ConflictRejected(parts: seq<Part>, m: map<string, Part>)
    requires parts != [] && PartLookupOf(parts[..|parts| - 1]) == Ok(m)
    requires parts[|parts| - 1].id in m && m[parts[|parts| - 1].id] != parts[|parts| - 1]
    ensures Conflicting(parts)
  {
    var init := parts[..|parts| - 1];
    var p := parts[|parts| - 1];
    PartIdSetSnoc(parts);
    var k :| 0 <= k < |init| && init[k] == m[p.id];
    ConflictPair(parts, k, |parts| - 1);
  }

  lemma ConflictAccepted(parts: seq<Part>, m: map<string, Part>)
    requires parts != [] && PartLookupOf(parts[..|parts| - 1]) == Ok(m)
    requires !Conflicting(parts[..|parts| - 1])
    requires !(parts[|parts| - 1].id in m && m[parts[|parts| - 1].id] != parts[|parts| - 1])
    ensures !Conflicting(parts)
  {
    var init := parts[..|parts| - 1];
    var last := |parts| - 1;
    PartIdSetSnoc(parts);
    if Conflicting(parts) {
      var i, j :| 0 <= i < j < |parts| && parts[i].id == parts[j].id && parts[i] != parts[j];
      if j == last {
        assert parts[i].id in PartIdSet(init);
        var k :| 0 <= k < |init| && init[k] == m[parts[last].id];
        ConflictPair(init, i, k);
      }
    }
  }

  function PartLookup(a: Assembly): (r: Result<map<string, Part>, Exception>)
    ensures r.Ok? <==> !Conflicting(a.parts)
    ensures r.Ok? ==> r.value.Keys == PartIdSet(a.parts)
    ensures r.Ok? ==> forall id :: id in r.value ==> r.value[id].id == id && r.value[id] in a.parts
  {
    PartLookupOkIff(a.parts);
    PartLookupOf(a.parts)
  }

  /** The lookup of two parts with one id: kept when they are equal, rejected otherwise. */
  lemma PairLookup(p: Part, q: Part)
    requires p.id == q.id
    ensures PartLookupOf([p, q]) == if p == q then Ok(map[p.id := p]) else Err(ArgumentException(DuplicateKeyMessage(p.id)))
  {
    var one := [p];
    assert one[..|one| - 1] == [] && one[|one| - 1] == p;
    assert PartLookupOf(one) == Ok(map[p.id := p]);
    var two := [p, q];
    assert two[..|two| - 1] == one && two[|two| - 1] == q;
    if p == q {
      assert map[p.id := p][q.id := q] == map[p.id := p];
    }
  }

  /**
   * Two parts built separately from the same non-empty geometry list hold two
   * different arrays, so record equality tells them apart and the lookup
   * rejects them when they share an id.
   */
  lemma SeparatelyBuiltPartsConflict(
    id: string, name: string, mass: Double, centerOfMass: Point3d,
    geometry: seq<GeometryPrimitive>, first: nat, second: nat)
    requires AllValidPrimitives(geometry) && geometry != [] && first != second
    requires id != [] && name != [] && !Le(mass, Finite(0.0))
    ensures var p := NewPart(Some(id), Some(name), mass, centerOfMass, Some(geometry), first).value;
      var q := NewPart(Some(id), Some(name), mass, centerOfMass, Some(geometry), second).value;
      PartLookupOf([p, q]) == Err(ArgumentException(DuplicateKeyMessage(id)))
  {
    var p := NewPart(Some(id), Some(name), mass, centerOfMass, Some(geometry), first).value;
    var q := NewPart(Some(id), Some(name), mass, centerOfMass, Some(geometry), second).value;
    assert p.geometryArray != q.geometryArray;
    PairLookup(p, q);
  }

  /**
   * Parts without geometry share their array, whatever the allocation: two
   * built from a null list and equal arguments are equal, and the lookup keeps
   * one of them. A part built from an empty list holds a different shared
   * array, so it conflicts with one built from a null list.
   */
  lemma GeometryFreePartsShare(
    id: string, name: string, mass: Double, centerOfMass: Point3d, first: nat, second: nat)
    requires id != [] && name != [] && !Le(mass, Finite(0.0))
    ensures var p := NewPart(Some(id), Some(name), mass, centerOfMass, None, first).value;
      var q := NewPart(Some(id), Some(name), mass, centerOfMass, Some([]), second).value;
      && p == NewPart(Some(id), Some(name), mass, centerOfMass, None, second).value
      && PartLookupOf([p, p]) == Ok(map[id := p])
      && PartLookupOf([p, q]) == Err(ArgumentException(DuplicateKeyMessage(id)))
  {
    var p := NewPart(Some(id), Some(name), mass, centerOfMass, None, first).value;
    var q := NewPart(Some(id), Some(name), mass, centerOfMass, Some([]), second).value;
    assert p.geometryArray != q.geometryArray;
    PairLookup(p, p);
    PairLookup(p, q);
  }

  // ---------------------------------------------------------------------
  // Plans
  // ---------------------------------------------------------------------

  datatype Pose = Pose(origin: Point3d, xAxis: Vector3d, yAxis: Vector3d, zAxis: Vector3d)

  datatype PlanStep = PlanStep(index: int, action: string, partId: string, pose: Option<Pose>)

  predicate ValidPlanStep(s: PlanStep)
  {
    s.index >= 0 && s.action != [] && s.partId != []
  }

  /** The PlanStep constructor. */
  function NewPlanStep(index: int, action: Option<string>, partId: Option<string>, pose: Option<Pose>)
    : (r: Result<PlanStep, Exception>)
    ensures r.Ok? <==> index >= 0 && Present(action) && Present(partId)
    ensures index < 0 ==> r == Err(ArgumentOutOfRangeException("index", OutOfRangeMessage))
    ensures index >= 0 && !Present(action) ==> r == Err(NullOrEmptyError(action, "action").value)
    ensures index >= 0 && Present(action) && !Present(partId) ==> r == Err(NullOrEmptyError(partId, "partId").value)
    ensures r.Ok? ==> ValidPlanStep(r.value)
    ensures r.Ok? ==> r.value == PlanStep(index, action.value, partId.value, pose)
  {
    if index < 0 then Err(ArgumentOutOfRangeException("index", OutOfRangeMessage))
    else if !Present(action) then Err(NullOrEmptyError(action, "action").value)
    else if !Present(partId) then Err(NullOrEmptyError(partId, "partId").value)
    else Ok(PlanStep(index, action.value, partId.value, pose))
  }

  datatype AssemblyPlan = AssemblyPlan(name: string, steps: seq<PlanStep>, isValid: bool, diagnostics: seq<string>)

  /** The AssemblyPlan constructor: diagnostics default to an empty list. */
  function NewAssemblyPlan(name: Option<string>, steps: Option<seq<PlanStep>>, isValid: bool, diagnostics: Option<seq<string>>)
    : (r: Result<AssemblyPlan, Exception>)
    ensures r.Ok? <==> Present(name) && steps.Some?
    ensures !Present(name) ==> r == Err(NullOrEmptyError(name, "name").value)
    ensures Present(name) && steps.None? ==> r == Err(ArgumentNullException("steps"))
    ensures r.Ok? ==> r.value.name == name.value && r.value.steps == steps.value && r.value.isValid == isValid
    ensures r.Ok? ==> r.value.diagnostics == (if diagnostics.None? then [] else diagnostics.value)
  {
    if !Present(name) then Err(NullOrEmptyError(name, "name").value)
    else if steps.None? then Err(ArgumentNullException("steps"))
    else Ok(AssemblyPlan(name.value, steps.value, isValid, if diagnostics.None? then [] else diagnostics.value))
  }
}
