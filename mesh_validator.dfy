// MeshValidator: the prechecks, the four optional checks (topology, degenerate faces, normals, bounding box) and the
// report they fill in. A Rhino mesh is the record of what the checks read from it; the geometry behind those readings
// (vertex positions, normal vectors, the box) stays with Rhino.

module MeshValidation {
  import opened Common
  import opened IntSets
  import opened Meshes

  /** Which checks run, and their thresholds. */
  datatype ValidationOptions = ValidationOptions(
    checkDegenerateFaces: bool, checkNormals: bool, checkBoundingBox: bool, checkTopology: bool,
    tolerance: real, maxDegenerateFacePercentage: int)

  const DefaultValidationOptions := ValidationOptions(true, true, true, true, 0.000001, 80)

  /** The defaults FinalValidation uses when it is given no options. */
  const FinalValidationOptions := DefaultValidationOptions.(tolerance := 0.001)

  /** What the validator reads from a Rhino mesh. */
  datatype RhinoMesh = RhinoMesh(
    faces: seq<MeshFace>,
    vertexCount: nat,
    isValid: bool,
    // GetNakedEdges: null, or the number of naked-edge polylines.
    nakedEdges: Option<nat>,
    // The face indices IsDegenerateFace reports (coincident vertices, or a triangle of zero area).
    degenerateFaces: set<int>,
    faceNormalLengths: seq<real>,
    boundingBoxValid: bool,
    diagonal: real)

  class ValidationResult {
    var isValid: bool
    var warnings: seq<string>
    var errors: seq<string>
    var degenerateFaceCount: int
    var totalFaceCount: int
    var hasValidNormals: bool
    var hasValidBoundingBox: bool

    constructor(totalFaceCount: int)
      ensures isValid && warnings == [] && errors == [] && degenerateFaceCount == 0
      ensures this.totalFaceCount == totalFaceCount && !hasValidNormals && !hasValidBoundingBox
    {
      isValid := true;
      warnings := [];
      errors := [];
      degenerateFaceCount := 0;
      this.totalFaceCount := totalFaceCount;
      hasValidNormals := false;
      hasValidBoundingBox := false;
    }
  }

  /** The fields of a ValidationResult, as a value. */
  datatype Report = Report(
    isValid: bool, warnings: seq<string>, errors: seq<string>, degenerateFaceCount: int, totalFaceCount: int,
    hasValidNormals: bool, hasValidBoundingBox: bool)

  function ReportOf(r: ValidationResult): Report
    reads r
  {
    Report(r.isValid, r.warnings, r.errors, r.degenerateFaceCount, r.totalFaceCount, r.hasValidNormals, r.hasValidBoundingBox)
  }

  function FreshReport(totalFaceCount: int): Report
  {
    Report(true, [], [], 0, totalFaceCount, false, false)
  }

  // ---------------------------------------------------------------------
  // Prechecks
  // ---------------------------------------------------------------------

  /** The error of the first precheck a mesh fails, if any. */
  function Precheck(mesh: Option<RhinoMesh>): Option<string>
  {
    if mesh.None? then Some("Mesh is null")
    else if !mesh.value.isValid then Some("Mesh is not valid according to Rhino")
    else if mesh.value.vertexCount < 3 then Some("Mesh has insufficient vertices (" + IntToString(mesh.value.vertexCount) + ")")
    else if |mesh.value.faces| == 0 then Some("Mesh has no faces")
    else None
  }

  // ---------------------------------------------------------------------
  // CheckTopology
  // ---------------------------------------------------------------------

  function NakedEdgesWarning(n: int): string
  {
    "Mesh has " + IntToString(n) + " naked edges (open boundaries)"
  }

  function DuplicatesError(n: int): string
  {
    "Mesh has " + IntToString(n) + " duplicate faces"
  }

  /** What CheckTopology adds: a warning for naked edges, an error for faces repeated in the same order. */
  function TopologyStage(s: Report, m: RhinoMesh): Report
  {
    var naked := if m.nakedEdges.Some? && m.nakedEdges.value > 0 then [NakedEdgesWarning(m.nakedEdges.value)] else [];
    var duplicates := |LaterDuplicates(m.faces, OrderedSignature)|;
    var s1 := s.(warnings := s.warnings + naked);
    if duplicates > 0 then s1.(errors := s1.errors + [DuplicatesError(duplicates)], isValid := false) else s1
  }

  /** FindDuplicateFaces: the later faces whose corners, in order, an earlier face already has. */
  method FindDuplicateFaces(faces: seq<MeshFace>) returns (duplicateIndices: seq<int>)
    ensures duplicateIndices == LaterDuplicates(faces, OrderedSignature)
  {
    duplicateIndices := FindLaterDuplicates(faces, OrderedSignature);
  }

  /** A face counts as a duplicate exactly when an earlier face lists the same corners in the same order; a reordered
      face is not one. The indices come back ascending. */
  lemma DuplicateFacesIff(faces: seq<MeshFace>, i: int)
    ensures i in LaterDuplicates(faces, OrderedSignature) <==>
      0 <= i < |faces| && exists j :: 0 <= j < i && Indices(faces[j]) == Indices(faces[i])
    ensures StrictlyIncreasing(LaterDuplicates(faces, OrderedSignature))
  {
    LaterDuplicatesIff(faces, OrderedSignature, i);
    if 0 <= i < |faces| {
      forall j | 0 <= j < i
        ensures OrderedSignature(faces[j]) == OrderedSignature(faces[i]) <==> Indices(faces[j]) == Indices(faces[i])
      {
        OrderedSignatureIff(faces[j], faces[i]);
      }
    }
  }

  method CheckTopology(m: RhinoMesh, result: ValidationResult)
    modifies result
    ensures ReportOf(result) == TopologyStage(old(ReportOf(result)), m)
  {
    var nakedEdges := m.nakedEdges;
    if nakedEdges.Some? && nakedEdges.value > 0 {
      result.warnings := result.warnings + [NakedEdgesWarning(nakedEdges.value)];
    }
    var duplicateFaces := FindDuplicateFaces(m.faces);
    if |duplicateFaces| > 0 {
      result.errors := result.errors + [DuplicatesError(|duplicateFaces|)];
      result.isValid := false;
    }
  }

  // ---------------------------------------------------------------------
  // CheckDegenerateFaces
  // ---------------------------------------------------------------------

  function MinInt(a: int, b: int): int { if a <= b then a else b }

  function MaxInt(a: int, b: int): int { if a >= b then a else b }

  /** The sample size: Min(F, Max(1000, F / 10)). Meshes of up to 1000 faces are checked whole. */
  function CheckCount(faceCount: nat): (r: nat)
    ensures r <= faceCount
    ensures faceCount <= 1000 ==> r == faceCount
    ensures faceCount > 1000 ==> 1000 <= r
    ensures faceCount >= 10000 ==> r == faceCount / 10
  {
    MinInt(faceCount, MaxInt(1000, faceCount / 10))
  }

  /** How many of the faces 0 .. n - 1 are degenerate, counted as the loop does. */
  function SampleDegenerate(degenerate: set<int>, n: nat): (r: nat)
    ensures r <= n
  {
    if n == 0 then 0 else SampleDegenerate(degenerate, n - 1) + (if n - 1 in degenerate then 1 else 0)
  }

  function DegenerateBelow(degenerate: set<int>, n: nat): set<int>
  {
    set i | i in degenerate && 0 <= i < n
  }

  /** The count is the number of degenerate faces in the sample. */
  lemma {:induction false} SampleDegenerateIs(degenerate: set<int>, n: nat)
    ensures SampleDegenerate(degenerate, n) == |DegenerateBelow(degenerate, n)|
  {
    if n > 0 {
      SampleDegenerateIs(degenerate, n - 1);
      var below := DegenerateBelow(degenerate, n - 1);
      if n - 1 in degenerate {
        assert DegenerateBelow(degenerate, n) == below + {n - 1};
      } else {
        assert DegenerateBelow(degenerate, n) == below;
      }
    }
  }

  /** The extrapolated estimate of the missing faces: count * F / checkCount as a percentage of F (in exact arithmetic). */
  function DegeneratePercentage(count: nat, faceCount: nat, checkCount: nat): real
    requires faceCount > 0 && checkCount > 0
  {
    (count as real) * (faceCount as real) / (checkCount as real) * 100.0 / (faceCount as real)
  }

  /** The extrapolation cancels: the percentage is the sampled share, and it is over the threshold exactly when
      100 * count > threshold * checkCount. */
  lemma DegeneratePercentageIs(count: nat, faceCount: nat, checkCount: nat, threshold: int)
    requires faceCount > 0 && checkCount > 0
    ensures DegeneratePercentage(count, faceCount, checkCount) == 100.0 * (count as real) / (checkCount as real)
    ensures DegeneratePercentage(count, faceCount, checkCount) > threshold as real <==> 100 * count > threshold * checkCount
  {
    var c, f, k := count as real, faceCount as real, checkCount as real;
    var p := DegeneratePercentage(count, faceCount, checkCount);
    assert p == c * f / k * 100.0 / f;
    Cancellation(c, f, k);
    ScaledBack(p, c, k);
    OverThreshold(p, count, checkCount, threshold);
  }

  lemma Cancellation(c: real, f: real, k: real)
    requires f > 0.0 && k > 0.0
    ensures c * f / k * 100.0 / f == 100.0 * c / k
  {
    var estimate := c * f / k;
    var p := estimate * 100.0 / f;
    DivTimes(c * f, k);
    DivTimes(estimate * 100.0, f);
    ScaleBack(p, estimate, c, f, k);
    DivUnique(p, 100.0 * c, k);
  }

  lemma ScaledBack(p: real, c: real, k: real)
    requires k > 0.0 && p == 100.0 * c / k
    ensures p * k == 100.0 * c
  {
    DivTimes(100.0 * c, k);
  }

  lemma OverThreshold(p: real, count: nat, checkCount: nat, threshold: int)
    requires checkCount > 0 && p * (checkCount as real) == 100.0 * (count as real)
    ensures p > threshold as real <==> 100 * count > threshold * checkCount
  {
    MulOrder(p, threshold as real, checkCount as real);
    assert (100 * count) as real == 100.0 * (count as real);
    assert (threshold * checkCount) as real == (threshold as real) * (checkCount as real);
  }

  lemma DivTimes(a: real, b: real)
    requires b != 0.0
    ensures (a / b) * b == a
  {
  }

  /** From e * k == c * f and p * f == e * 100 it follows that p * k == 100 * c. */
  lemma ScaleBack(p: real, e: real, c: real, f: real, k: real)
    requires f > 0.0 && e * k == c * f && p * f == e * 100.0
    ensures p * k == 100.0 * c
  {
    assert (p * k) * f == (p * f) * k;
    assert (p * f) * k == 100.0 * (e * k);
    assert (p * k - 100.0 * c) * f == 0.0;
  }

  lemma DivUnique(p: real, y: real, k: real)
    requires k > 0.0 && p * k == y
    ensures p == y / k
  {
  }

  lemma MulOrder(p: real, t: real, k: real)
    requires k > 0.0
    ensures p > t <==> p * k > t * k
  {
    assert p * k - t * k == (p - t) * k;
  }

  function TooManyDegenerateError(percentage: string, threshold: int): string
  {
    "Too many degenerate faces (" + percentage + "%, threshold: " + IntToString(threshold) + "%)"
  }

  function DegenerateWarning(count: int, checkCount: int): string
  {
    "Found " + IntToString(count) + " degenerate faces in sample of " + IntToString(checkCount) + " faces"
  }

  /** What CheckDegenerateFaces leaves: the count in the sample, and an error over the threshold or else a warning
      when any face is degenerate. f1 stands for the F1 number format. */
  function DegenerateStage(s: Report, m: RhinoMesh, options: ValidationOptions, f1: real -> string): Report
    requires |m.faces| > 0
  {
    var checkCount := CheckCount(|m.faces|);
    var count := SampleDegenerate(m.degenerateFaces, checkCount);
    var percentage := DegeneratePercentage(count, |m.faces|, checkCount);
    var s1 := s.(degenerateFaceCount := count);
    if percentage > options.maxDegenerateFacePercentage as real then
      s1.(errors := s1.errors + [TooManyDegenerateError(f1(percentage), options.maxDegenerateFacePercentage)], isValid := false)
    else if count > 0 then
      s1.(warnings := s1.warnings + [DegenerateWarning(count, checkCount)])
    else s1
  }

  method CheckDegenerateFaces(m: RhinoMesh, result: ValidationResult, options: ValidationOptions, f1: real -> string)
    requires |m.faces| > 0
    modifies result
    ensures ReportOf(result) == DegenerateStage(old(ReportOf(result)), m, options, f1)
  {
    var checkCount := CheckCount(|m.faces|);
    CountDegenerate(m, result, checkCount);
    var count := result.degenerateFaceCount;
    var degeneratePercentage := DegeneratePercentage(count, |m.faces|, checkCount);
    if degeneratePercentage > options.maxDegenerateFacePercentage as real {
      result.errors := result.errors + [TooManyDegenerateError(f1(degeneratePercentage), options.maxDegenerateFacePercentage)];
      result.isValid := false;
    } else if count > 0 {
      result.warnings := result.warnings + [DegenerateWarning(count, checkCount)];
    }
  }

  /** The sampling loop: DegenerateFaceCount is reset, then counts the degenerate faces among the first checkCount. */
  method CountDegenerate(m: RhinoMesh, result: ValidationResult, checkCount: nat)
    modifies result
    ensures ReportOf(result) == old(ReportOf(result)).(degenerateFaceCount := SampleDegenerate(m.degenerateFaces, checkCount))
  {
    result.degenerateFaceCount := 0;
    for i := 0 to checkCount
      invariant ReportOf(result) == old(ReportOf(result)).(degenerateFaceCount := SampleDegenerate(m.degenerateFaces, i))
    {
      if i in m.degenerateFaces {
        result.degenerateFaceCount := result.degenerateFaceCount + 1;
      }
    }
  }

  // ---------------------------------------------------------------------
  // CheckNormals
  // ---------------------------------------------------------------------

  const ZeroNormalLength: real := 0.0000000001

  predicate IsZeroLength(length: real) { length < ZeroNormalLength }

  const NoNormalsWarning := "Mesh has no face normals computed"

  function NormalCountError(normals: int, faces: int): string
  {
    "Face normal count (" + IntToString(normals) + ") doesn't match face count (" + IntToString(faces) + ")"
  }

  function ZeroNormalsError(n: int): string
  {
    "Found " + IntToString(n) + " faces with zero-length normals"
  }

  /** What CheckNormals leaves. */
  function NormalsStage(s: Report, m: RhinoMesh): Report
  {
    var normals := |m.faceNormalLengths|;
    if normals == 0 then s.(warnings := s.warnings + [NoNormalsWarning], hasValidNormals := false)
    else if normals != |m.faces| then
      s.(errors := s.errors + [NormalCountError(normals, |m.faces|)], hasValidNormals := false, isValid := false)
    else
      var zeroNormals := Count(m.faceNormalLengths, IsZeroLength);
      if zeroNormals > 0 then
        s.(errors := s.errors + [ZeroNormalsError(zeroNormals)], hasValidNormals := false, isValid := false)
      else s.(hasValidNormals := true)
  }

  /** Missing normals are only a warning; a normal count other than the face count is one error; otherwise the normals
      are valid exactly when none is of zero length, and each zero-length one makes the same single error. */
  lemma NormalsFacts(s: Report, m: RhinoMesh)
    ensures var r := NormalsStage(s, m);
      && (|m.faceNormalLengths| == 0 ==> r.errors == s.errors && r.warnings == s.warnings + [NoNormalsWarning] && !r.hasValidNormals)
      && (0 < |m.faceNormalLengths| != |m.faces| ==>
            r.errors == s.errors + [NormalCountError(|m.faceNormalLengths|, |m.faces|)] && !r.hasValidNormals)
      && (0 < |m.faceNormalLengths| == |m.faces| ==>
            r.warnings == s.warnings
            && (r.hasValidNormals <==> forall i :: 0 <= i < |m.faceNormalLengths| ==> !IsZeroLength(m.faceNormalLengths[i]))
            && (r.hasValidNormals <==> r.errors == s.errors))
      && r.degenerateFaceCount == s.degenerateFaceCount
  {
    CountPositive(m.faceNormalLengths, IsZeroLength);
  }

  method CheckNormals(m: RhinoMesh, result: ValidationResult)
    modifies result
    ensures ReportOf(result) == NormalsStage(old(ReportOf(result)), m)
  {
    if |m.faceNormalLengths| == 0 {
      result.warnings := result.warnings + [NoNormalsWarning];
      result.hasValidNormals := false;
      return;
    }
    if |m.faceNormalLengths| != |m.faces| {
      result.errors := result.errors + [NormalCountError(|m.faceNormalLengths|, |m.faces|)];
      result.hasValidNormals := false;
      result.isValid := false;
      return;
    }
    var zeroNormals := 0;
    for i := 0 to |m.faceNormalLengths|
      invariant zeroNormals == Count(m.faceNormalLengths[..i], IsZeroLength)
      invariant unchanged(result)
    {
      PrefixStep(m.faceNormalLengths, i);
      if m.faceNormalLengths[i] < ZeroNormalLength {
        zeroNormals := zeroNormals + 1;
      }
    }
    PrefixWhole(m.faceNormalLengths);
    assert zeroNormals == Count(m.faceNormalLengths, IsZeroLength);
    if zeroNormals > 0 {
      result.errors := result.errors + [ZeroNormalsError(zeroNormals)];
      result.hasValidNormals := false;
      result.isValid := false;
    } else {
      result.hasValidNormals := true;
    }
  }

  // ---------------------------------------------------------------------
  // CheckBoundingBox
  // ---------------------------------------------------------------------

  const InvalidBoxError := "Mesh bounding box is invalid"

  function SmallBoxError(diagonal: string): string
  {
    "Mesh bounding box is too small (diagonal: " + diagonal + ")"
  }

  /** What CheckBoundingBox leaves; f6 stands for the F6 number format. */
  function BoundingBoxStage(s: Report, m: RhinoMesh, options: ValidationOptions, f6: real -> string): Report
  {
    if !m.boundingBoxValid then s.(errors := s.errors + [InvalidBoxError], hasValidBoundingBox := false, isValid := false)
    else if m.diagonal < options.tolerance then
      s.(errors := s.errors + [SmallBoxError(f6(m.diagonal))], hasValidBoundingBox := false, isValid := false)
    else s.(hasValidBoundingBox := true)
  }

  method CheckBoundingBox(m: RhinoMesh, result: ValidationResult, options: ValidationOptions, f6: real -> string)
    modifies result
    ensures ReportOf(result) == BoundingBoxStage(old(ReportOf(result)), m, options, f6)
  {
    if !m.boundingBoxValid {
      result.errors := result.errors + [InvalidBoxError];
      result.hasValidBoundingBox := false;
      result.isValid := false;
      return;
    }
    if m.diagonal < options.tolerance {
      result.errors := result.errors + [SmallBoxError(f6(m.diagonal))];
      result.hasValidBoundingBox := false;
      result.isValid := false;
    } else {
      result.hasValidBoundingBox := true;
    }
  }

  // ---------------------------------------------------------------------
  // ValidateMesh
  // ---------------------------------------------------------------------

  /** The checks ValidateMesh runs on a mesh that passed the prechecks, in order. */
  function Checked(m: RhinoMesh, options: ValidationOptions, f1: real -> string, f6: real -> string): Report
    requires |m.faces| > 0
  {
    var s0 := FreshReport(|m.faces|);
    var s1 := if options.checkTopology then TopologyStage(s0, m) else s0;
    var s2 := if options.checkDegenerateFaces then DegenerateStage(s1, m, options, f1) else s1;
    var s3 := if options.checkNormals then NormalsStage(s2, m) else s2;
    if options.checkBoundingBox then BoundingBoxStage(s3, m, options, f6) else s3
  }

  /** The report ValidateMesh returns. */
  function Validation(mesh: Option<RhinoMesh>, options: ValidationOptions, f1: real -> string, f6: real -> string): Report
  {
    var start := FreshReport(if mesh.Some? then |mesh.value.faces| else 0);
    match Precheck(mesh)
    case Some(error) => start.(errors := [error], isValid := false)
    case None =>
      var r := Checked(mesh.value, options, f1, f6);
      r.(isValid := r.errors == [])
  }

  function OptionsOrDefault(options: Option<ValidationOptions>, default: ValidationOptions): ValidationOptions
  {
    if options.Some? then options.value else default
  }

  method ValidateMesh(mesh: Option<RhinoMesh>, options: Option<ValidationOptions>, f1: real -> string, f6: real -> string)
    returns (result: ValidationResult)
    ensures ReportOf(result) == Validation(mesh, OptionsOrDefault(options, DefaultValidationOptions), f1, f6)
  {
    var opts := OptionsOrDefault(options, DefaultValidationOptions);
    result := new ValidationResult(if mesh.Some? then |mesh.value.faces| else 0);
    if mesh.None? {
      result.errors := result.errors + ["Mesh is null"];
      result.isValid := false;
      return;
    }
    var m := mesh.value;
    if !m.isValid {
      result.errors := result.errors + ["Mesh is not valid according to Rhino"];
      result.isValid := false;
      return;
    }
    if m.vertexCount < 3 {
      result.errors := result.errors + ["Mesh has insufficient vertices (" + IntToString(m.vertexCount) + ")"];
      result.isValid := false;
      return;
    }
    if |m.faces| == 0 {
      result.errors := result.errors + ["Mesh has no faces"];
      result.isValid := false;
      return;
    }
    if opts.checkTopology {
      CheckTopology(m, result);
    }
    if opts.checkDegenerateFaces {
      CheckDegenerateFaces(m, result, opts, f1);
    }
    if opts.checkNormals {
      CheckNormals(m, result);
    }
    if opts.checkBoundingBox {
      CheckBoundingBox(m, result, opts, f6);
    }
    result.isValid := |result.errors| == 0;
  }

  /** FinalValidation: ValidateMesh with a bounding-box tolerance of 1e-3 when no options are given. */
  method FinalValidation(mesh: Option<RhinoMesh>, options: Option<ValidationOptions>, f1: real -> string, f6: real -> string)
    returns (result: ValidationResult)
    ensures ReportOf(result) == Validation(mesh, OptionsOrDefault(options, FinalValidationOptions), f1, f6)
  {
    var opts := OptionsOrDefault(options, FinalValidationOptions);
    result := ValidateMesh(mesh, Some(opts), f1, f6);
  }

  /** ValidateMeshForContactDetection: the verdict, and the errors joined by "; " when there are any. */
  method ValidateMeshForContactDetection(mesh: Option<RhinoMesh>, meshName: string, f1: real -> string, f6: real -> string)
    returns (ok: bool, errorMessage: Option<string>)
    ensures var r := Validation(mesh, DefaultValidationOptions, f1, f6);
      && (ok <==> r.errors == [])
      && (ok ==> errorMessage == None)
      && (!ok ==> errorMessage == Some(Join(r.errors, "; ")) && StartsWith(errorMessage.value, r.errors[0]))
  {
    var result := ValidateMesh(mesh, Some(DefaultValidationOptions.(tolerance := 0.000001)), f1, f6);
    ValidIffNoErrors(mesh, DefaultValidationOptions, f1, f6);
    errorMessage := if result.isValid then None else Some(Join(result.errors, "; "));
    if !result.isValid {
      JoinStartsWithFirst(result.errors, "; ");
    }
    return result.isValid, errorMessage;
  }

  lemma JoinStartsWithFirst(xs: seq<string>, sep: string)
    requires xs != []
    ensures StartsWith(Join(xs, sep), xs[0])
  {
    if |xs| > 1 {
      assert Join(xs, sep) == xs[0] + (sep + Join(xs[1..], sep));
    }
  }

  // ---------------------------------------------------------------------
  // What a validation reports
  // ---------------------------------------------------------------------

  /** A mesh that fails a precheck gets exactly that one error, is invalid, and no check runs. */
  lemma PrecheckStops(mesh: Option<RhinoMesh>, options: ValidationOptions, f1: real -> string, f6: real -> string)
    requires Precheck(mesh).Some?
    ensures var r := Validation(mesh, options, f1, f6);
      && r.errors == [Precheck(mesh).value] && !r.isValid
      && r.warnings == [] && r.degenerateFaceCount == 0 && !r.hasValidNormals && !r.hasValidBoundingBox
      && r.totalFaceCount == (if mesh.Some? then |mesh.value.faces| else 0)
  {
  }

  /** Whatever happens, the mesh is valid exactly when no error was recorded. */
  lemma ValidIffNoErrors(mesh: Option<RhinoMesh>, options: ValidationOptions, f1: real -> string, f6: real -> string)
    ensures Validation(mesh, options, f1, f6).isValid <==> Validation(mesh, options, f1, f6).errors == []
  {
  }

  /** Each check adds at most one error, and adds none exactly when it finds nothing wrong. */
  lemma TopologyErrors(s: Report, m: RhinoMesh)
    ensures TopologyStage(s, m).errors == s.errors <==> LaterDuplicates(m.faces, OrderedSignature) == []
    ensures TopologyStage(s, m).errors == s.errors || |TopologyStage(s, m).errors| == |s.errors| + 1
  {
  }

  lemma DegenerateErrors(s: Report, m: RhinoMesh, options: ValidationOptions, f1: real -> string)
    requires |m.faces| > 0
    ensures DegenerateStage(s, m, options, f1).errors == s.errors <==>
      100 * SampleDegenerate(m.degenerateFaces, CheckCount(|m.faces|)) <= options.maxDegenerateFacePercentage * CheckCount(|m.faces|)
    ensures DegenerateStage(s, m, options, f1).errors == s.errors || |DegenerateStage(s, m, options, f1).errors| == |s.errors| + 1
  {
    var checkCount := CheckCount(|m.faces|);
    DegeneratePercentageIs(SampleDegenerate(m.degenerateFaces, checkCount), |m.faces|, checkCount, options.maxDegenerateFacePercentage);
  }

  lemma NormalsErrors(s: Report, m: RhinoMesh)
    ensures NormalsStage(s, m).errors == s.errors <==>
      |m.faceNormalLengths| == 0
      || (|m.faceNormalLengths| == |m.faces| && forall i :: 0 <= i < |m.faceNormalLengths| ==> !IsZeroLength(m.faceNormalLengths[i]))
    ensures NormalsStage(s, m).errors == s.errors || |NormalsStage(s, m).errors| == |s.errors| + 1
  {
    CountPositive(m.faceNormalLengths, IsZeroLength);
  }

  lemma BoundingBoxErrors(s: Report, m: RhinoMesh, options: ValidationOptions, f6: real -> string)
    ensures BoundingBoxStage(s, m, options, f6).errors == s.errors <==> m.boundingBoxValid && m.diagonal >= options.tolerance
    ensures BoundingBoxStage(s, m, options, f6).errors == s.errors || |BoundingBoxStage(s, m, options, f6).errors| == |s.errors| + 1
  {
  }

  /** A larger tolerance only rejects more boxes: whatever passes with tolerance t passes with any smaller one. */
  lemma LargerToleranceRejectsMore(s: Report, m: RhinoMesh, options: ValidationOptions, t: real, f6: real -> string)
    requires options.tolerance <= t
    ensures BoundingBoxStage(s, m, options.(tolerance := t), f6).errors == s.errors ==> BoundingBoxStage(s, m, options, f6).errors == s.errors
  {
    BoundingBoxErrors(s, m, options, f6);
    BoundingBoxErrors(s, m, options.(tolerance := t), f6);
  }

  /** The default options of FinalValidation (tolerance 1e-3) are stricter than those of ValidateMesh (1e-6): a valid
      box whose diagonal lies between the two passes ValidateMesh's check and fails FinalValidation's. */
  lemma FinalToleranceIsStricter(s: Report, m: RhinoMesh, f6: real -> string)
    requires m.boundingBoxValid && 0.000001 <= m.diagonal < 0.001
    ensures BoundingBoxStage(s, m, DefaultValidationOptions, f6).errors == s.errors
    ensures BoundingBoxStage(s, m, FinalValidationOptions, f6).errors == s.errors + [SmallBoxError(f6(m.diagonal))]
  {
  }

  /** A mesh passes validation exactly when it passes the prechecks and every enabled check finds nothing wrong: no face
      repeated in the same order, a degenerate share within the threshold, normals either absent or one per face and
      none of zero length, and a valid bounding box whose diagonal reaches the tolerance. */
  lemma ValidIff(mesh: Option<RhinoMesh>, options: ValidationOptions, f1: real -> string, f6: real -> string)
    ensures Validation(mesh, options, f1, f6).isValid <==>
      && Precheck(mesh).None?
      && var m := mesh.value;
      && (options.checkTopology ==> LaterDuplicates(m.faces, OrderedSignature) == [])
      && (options.checkDegenerateFaces ==>
            100 * SampleDegenerate(m.degenerateFaces, CheckCount(|m.faces|)) <= options.maxDegenerateFacePercentage * CheckCount(|m.faces|))
      && (options.checkNormals ==>
            |m.faceNormalLengths| == 0
            || (|m.faceNormalLengths| == |m.faces| && forall i :: 0 <= i < |m.faceNormalLengths| ==> !IsZeroLength(m.faceNormalLengths[i])))
      && (options.checkBoundingBox ==> m.boundingBoxValid && m.diagonal >= options.tolerance)
  {
    if Precheck(mesh).None? {
      var m := mesh.value;
      var s0 := FreshReport(|m.faces|);
      var s1 := if options.checkTopology then TopologyStage(s0, m) else s0;
      var s2 := if options.checkDegenerateFaces then DegenerateStage(s1, m, options, f1) else s1;
      var s3 := if options.checkNormals then NormalsStage(s2, m) else s2;
      var s4 := if options.checkBoundingBox then BoundingBoxStage(s3, m, options, f6) else s3;
      TopologyErrors(s0, m);
      DegenerateErrors(s1, m, options, f1);
      NormalsErrors(s2, m);
      BoundingBoxErrors(s3, m, options, f6);
      assert Checked(m, options, f1, f6) == s4;
    }
  }
}
