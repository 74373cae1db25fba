// The mesh repair pipeline of the Geometry toolkit (the copy under
// src/AssemblyChain/Geometry): hole filling from naked-edge polylines,
// duplicate-face removal and the stage flags of RepairMesh.

module MeshRepair {
  import opened Common
  import opened Meshes

  datatype Point3 = Point3(x: real, y: real, z: real)

  /** A naked-edge polyline as Mesh.GetNakedEdges returns it. */
  datatype Polyline = Polyline(points: seq<Point3>, isClosed: bool)

  /** MeshHoleLoop: the mesh vertex index of each traced point, and the points themselves. */
  datatype HoleLoop = HoleLoop(vertexIndices: seq<int>, points: seq<Point3>)

  // ---------------------------------------------------------------------
  // ExtractLoopsFromNakedEdges
  // ---------------------------------------------------------------------

  /** The points of a polyline that name a mesh vertex, with those vertices; vertexIndexOf stands for FindOrCreateVertexIndex. */
  function Traced(points: seq<Point3>, vertexIndexOf: Point3 -> int): (l: HoleLoop)
    ensures |l.vertexIndices| == |l.points| <= |points|
    ensures forall k :: 0 <= k < |l.vertexIndices| ==> l.vertexIndices[k] >= 0
  {
    if points == [] then HoleLoop([], [])
    else
      var l := Traced(points[..|points| - 1], vertexIndexOf);
      var p := points[|points| - 1];
      if vertexIndexOf(p) < 0 then l else HoleLoop(l.vertexIndices + [vertexIndexOf(p)], l.points + [p])
  }

  /** A closed polyline repeats its first point at the end, which is not traced. */
  function TracedCount(e: Polyline): int
  {
    if e.isClosed then |e.points| - 1 else |e.points|
  }

  /** The loop one polyline gives, if it has four points or more and at least three of them name vertices. */
  function LoopOf(e: Polyline, vertexIndexOf: Point3 -> int): Option<HoleLoop>
  {
    if |e.points| < 4 then None
    else
      var l := Traced(e.points[..TracedCount(e)], vertexIndexOf);
      if |l.vertexIndices| >= 3 then Some(l) else None
  }

  function ExtractedLoops(edges: seq<Polyline>, vertexIndexOf: Point3 -> int): seq<HoleLoop>
  {
    if edges == [] then []
    else
      var loop := LoopOf(edges[|edges| - 1], vertexIndexOf);
      ExtractedLoops(edges[..|edges| - 1], vertexIndexOf) + (if loop.Some? then [loop.value] else [])
  }

  /** Every extracted loop has at least three vertex indices, all of them real vertices, one per traced point;
      there is at most one loop per polyline. */
  lemma {:induction false} ExtractedLoopsFacts(edges: seq<Polyline>, vertexIndexOf: Point3 -> int)
    ensures |ExtractedLoops(edges, vertexIndexOf)| <= |edges|
    ensures forall l :: l in ExtractedLoops(edges, vertexIndexOf) ==>
      |l.vertexIndices| >= 3 && |l.vertexIndices| == |l.points| && forall x :: x in l.vertexIndices ==> x >= 0
  {
    if edges != [] {
      ExtractedLoopsFacts(edges[..|edges| - 1], vertexIndexOf);
    }
  }

  method TraceLoop(e: Polyline, vertexIndexOf: Point3 -> int) returns (loop: HoleLoop)
    requires |e.points| >= 4
    ensures loop == Traced(e.points[..TracedCount(e)], vertexIndexOf)
  {
    var vertexIndices: seq<int> := [];
    var points: seq<Point3> := [];
    var count := if e.isClosed then |e.points| - 1 else |e.points|;
    ghost var traced := e.points[..count];
    for i := 0 to count
      invariant HoleLoop(vertexIndices, points) == Traced(traced[..i], vertexIndexOf)
    {
      PrefixStep(traced, i);
      var point := e.points[i];
      var vertexIndex := vertexIndexOf(point);
      if vertexIndex < 0 {
        continue;
      }
      points := points + [point];
      vertexIndices := vertexIndices + [vertexIndex];
    }
    PrefixWhole(traced);
    loop := HoleLoop(vertexIndices, points);
  }

  /** ExtractLoopsFromNakedEdges: one loop per usable polyline, in the order of the polylines. */
  method ExtractLoopsFromNakedEdges(nakedEdges: Option<seq<Polyline>>, vertexIndexOf: Point3 -> int) returns (loops: seq<HoleLoop>)
    ensures loops == if nakedEdges.None? then [] else ExtractedLoops(nakedEdges.value, vertexIndexOf)
  {
    loops := [];
    if nakedEdges.None? {
      return;
    }
    var edges := nakedEdges.value;
    for k := 0 to |edges|
      invariant loops == ExtractedLoops(edges[..k], vertexIndexOf)
    {
      PrefixStep(edges, k);
      var edgeLoop := edges[k];
      if |edgeLoop.points| < 4 {
        continue;
      }
      var loop := TraceLoop(edgeLoop, vertexIndexOf);
      if |loop.vertexIndices| >= 3 {
        loops := loops + [loop];
      }
    }
    PrefixWhole(edges);
  }

  // ---------------------------------------------------------------------
  // TryFillHole
  // ---------------------------------------------------------------------

  /** The faces TryFillHole adds for a loop of three or more indices: a triangle, a quad, or a fan. */
  function HoleFaces(loop: seq<int>): seq<MeshFace>
    requires |loop| >= 3
  {
    if |loop| == 3 then [Triangle(loop[0], loop[1], loop[2])]
    else if |loop| == 4 then [MeshFace(loop[0], loop[1], loop[2], loop[3])]
    else Fan(loop)
  }

  /** Three indices give one triangle, four give one face with all four, more give |loop| - 2 fan triangles;
      every corner of every new face is an index of the loop. */
  lemma HoleFacesFacts(loop: seq<int>)
    requires |loop| >= 3
    ensures |HoleFaces(loop)| == if |loop| == 4 then 1 else |loop| - 2
    ensures |loop| == 3 ==> HoleFaces(loop) == [Triangle(loop[0], loop[1], loop[2])]
    ensures |loop| == 4 ==> Indices(HoleFaces(loop)[0])[..3] == loop[..3]
    ensures |loop| > 4 ==> forall k :: 0 <= k < |loop| - 2 ==>
      HoleFaces(loop)[k] == Triangle(loop[0], loop[k + 1], loop[k + 2])
    ensures forall f, x :: f in HoleFaces(loop) && x in Indices(f) ==> x in loop
  {
    forall f, x | f in HoleFaces(loop) && x in Indices(f) ensures x in loop {
      if |loop| > 4 {
        var k :| 0 <= k < |Fan(loop)| && Fan(loop)[k] == f;
        FanFacts(loop, k);
      }
    }
  }

  /** TryFillHole: fails, adding nothing, for a missing loop or one of fewer than three indices; otherwise adds HoleFaces. */
  method TryFillHole(mesh: Mesh, loop: Option<seq<int>>) returns (ok: bool)
    modifies mesh
    ensures ok <==> loop.Some? && |loop.value| >= 3
    ensures mesh.faces == old(mesh.faces) + (if ok then HoleFaces(loop.value) else [])
  {
    if loop.None? || |loop.value| < 3 {
      return false;
    }
    var l := loop.value;
    if |l| == 3 {
      mesh.faces := mesh.faces + [Triangle(l[0], l[1], l[2])];
    } else if |l| == 4 {
      mesh.faces := mesh.faces + [MeshFace(l[0], l[1], l[2], l[3])];
    } else {
      AddFan(mesh, l);
    }
    // Normals and Compact are not modelled.
    return true;
  }

  /** The loop of TryFillHole for more than four indices: triangles (loop[0], loop[i], loop[i + 1]). */
  method AddFan(mesh: Mesh, l: seq<int>)
    requires |l| > 4
    modifies mesh
    ensures mesh.faces == old(mesh.faces) + Fan(l)
  {
    ghost var fan := Fan(l);
    for i := 1 to |l| - 1
      invariant mesh.faces == old(mesh.faces) + fan[..i - 1]
    {
      assert fan[..i] == fan[..i - 1] + [fan[i - 1]];
      mesh.faces := mesh.faces + [Triangle(l[0], l[i], l[i + 1])];
    }
    assert fan[..|l| - 2] == fan;
  }

  // ---------------------------------------------------------------------
  // FillMeshHoles
  // ---------------------------------------------------------------------

  /** A loop is filled when it has three indices or more and its area (CalculateLoopArea) is within the limit. */
  predicate Fillable(l: HoleLoop, maxHoleSize: real, area: seq<Point3> -> real)
  {
    |l.vertexIndices| >= 3 && !(area(l.points) > maxHoleSize)
  }

  /** The warning for a loop that is skipped ({holeArea:F6} is f6). */
  function SkipWarning(l: HoleLoop, maxHoleSize: real, area: seq<Point3> -> real, f6: real -> string): string
  {
    if |l.vertexIndices| < 3 then "Skipping degenerate hole with " + IntToString(|l.vertexIndices|) + " vertices"
    else "Skipping large hole (area: " + f6(area(l.points)) + ", max: " + f6(maxHoleSize) + ")"
  }

  function FilledFaces(loops: seq<HoleLoop>, maxHoleSize: real, area: seq<Point3> -> real): seq<MeshFace>
  {
    if loops == [] then []
    else
      var l := loops[|loops| - 1];
      FilledFaces(loops[..|loops| - 1], maxHoleSize, area) +
        (if Fillable(l, maxHoleSize, area) then HoleFaces(l.vertexIndices) else [])
  }

  function FilledCount(loops: seq<HoleLoop>, maxHoleSize: real, area: seq<Point3> -> real): nat
  {
    if loops == [] then 0
    else FilledCount(loops[..|loops| - 1], maxHoleSize, area) + (if Fillable(loops[|loops| - 1], maxHoleSize, area) then 1 else 0)
  }

  function SkipWarnings(loops: seq<HoleLoop>, maxHoleSize: real, area: seq<Point3> -> real, f6: real -> string): seq<string>
  {
    if loops == [] then []
    else
      var l := loops[|loops| - 1];
      SkipWarnings(loops[..|loops| - 1], maxHoleSize, area, f6) +
        (if Fillable(l, maxHoleSize, area) then [] else [SkipWarning(l, maxHoleSize, area, f6)])
  }

  /** Each loop is either filled or skipped with one warning; each fill adds at least one face, so faces are added
      exactly when some hole is filled. */
  lemma {:induction false} FillAccounting(loops: seq<HoleLoop>, maxHoleSize: real, area: seq<Point3> -> real, f6: real -> string)
    ensures FilledCount(loops, maxHoleSize, area) + |SkipWarnings(loops, maxHoleSize, area, f6)| == |loops|
    ensures FilledCount(loops, maxHoleSize, area) <= |FilledFaces(loops, maxHoleSize, area)|
    ensures |FilledFaces(loops, maxHoleSize, area)| > 0 <==> FilledCount(loops, maxHoleSize, area) > 0
  {
    if loops != [] {
      var l := loops[|loops| - 1];
      FillAccounting(loops[..|loops| - 1], maxHoleSize, area, f6);
      if Fillable(l, maxHoleSize, area) {
        HoleFacesFacts(l.vertexIndices);
      }
    }
  }

  /** What FillMeshHoles leaves: at a closed mesh only a warning; otherwise the filled faces, the fill count, one
      warning per skipped loop and, when faces were added, a summary. */
  function FillStage(s: RepairState, maxHoleSize: real, nakedEdges: Option<seq<Polyline>>,
                     vertexIndexOf: Point3 -> int, area: seq<Point3> -> real, f6: real -> string): RepairState
  {
    if NoNakedEdges(nakedEdges) then s.(warnings := s.warnings + [ClosedMeshWarning])
    else
      var loops := ExtractedLoops(nakedEdges.value, vertexIndexOf);
      var added := FilledFaces(loops, maxHoleSize, area);
      var filled := s.holesFilled + FilledCount(loops, maxHoleSize, area);
      s.(faces := s.faces + added, holesFilled := filled,
         warnings := s.warnings + SkipWarnings(loops, maxHoleSize, area, f6) +
           (if |added| > 0 then [FilledSummary(filled, |added|)] else []))
  }

  /** The fill stage adds faces only at the end, counts one fill per usable loop, never records an error, and at a
      closed mesh changes nothing but the warnings. Extracted loops always have three indices or more, so no loop is
      skipped as degenerate. */
  lemma FillStageFacts(s: RepairState, maxHoleSize: real, nakedEdges: Option<seq<Polyline>>,
                       vertexIndexOf: Point3 -> int, area: seq<Point3> -> real, f6: real -> string)
    ensures var r := FillStage(s, maxHoleSize, nakedEdges, vertexIndexOf, area, f6);
      && r.faces[..|s.faces|] == s.faces
      && r.errors == s.errors
      && r.holesFilled >= s.holesFilled
      && (|r.faces| > |s.faces| <==> r.holesFilled > s.holesFilled)
      && (NoNakedEdges(nakedEdges) ==> r == s.(warnings := s.warnings + [ClosedMeshWarning]))
      && (!NoNakedEdges(nakedEdges) ==> forall l :: l in ExtractedLoops(nakedEdges.value, vertexIndexOf) ==> |l.vertexIndices| >= 3)
  {
    if !NoNakedEdges(nakedEdges) {
      var loops := ExtractedLoops(nakedEdges.value, vertexIndexOf);
      FillAccounting(loops, maxHoleSize, area, f6);
      ExtractedLoopsFacts(nakedEdges.value, vertexIndexOf);
    }
  }

  /** FillMeshHoles. TryFillHole can fail only by an exception once a loop has three indices, so the
      "Failed to fill hole" warning is never given here. */
  method FillMeshHoles(mesh: Mesh, result: RepairResult, options: RepairOptions, nakedEdges: Option<seq<Polyline>>,
                       vertexIndexOf: Point3 -> int, area: seq<Point3> -> real, f6: real -> string)
    modifies mesh, result
    ensures StateOf(mesh, result) == FillStage(old(StateOf(mesh, result)), options.maxHoleSize, nakedEdges, vertexIndexOf, area, f6)
  {
    var initialFaceCount := |mesh.faces|;
    if nakedEdges.None? || |nakedEdges.value| == 0 {
      result.warnings := result.warnings + [ClosedMeshWarning];
      return;
    }
    var edgeLoops := ExtractLoopsFromNakedEdges(nakedEdges, vertexIndexOf);
    FillStageAfterLoops(StateOf(mesh, result), options.maxHoleSize, nakedEdges, vertexIndexOf, area, f6);
    FillLoops(mesh, result, options.maxHoleSize, edgeLoops, area, f6);
    var finalFaceCount := |mesh.faces|;
    if finalFaceCount > initialFaceCount {
      result.warnings := result.warnings + [FilledSummary(result.holesFilled, finalFaceCount - initialFaceCount)];
    }
  }

  /** With naked edges, the fill stage is the foreach over the loops followed by the summary when faces were added. */
  lemma FillStageAfterLoops(s: RepairState, maxHoleSize: real, nakedEdges: Option<seq<Polyline>>,
                            vertexIndexOf: Point3 -> int, area: seq<Point3> -> real, f6: real -> string)
    requires !NoNakedEdges(nakedEdges)
    ensures var a := AfterLoops(s, ExtractedLoops(nakedEdges.value, vertexIndexOf), maxHoleSize, area, f6);
      FillStage(s, maxHoleSize, nakedEdges, vertexIndexOf, area, f6)
        == if |a.faces| > |s.faces| then a.(warnings := a.warnings + [FilledSummary(a.holesFilled, |a.faces| - |s.faces|)]) else a
  {
  }

  /** The state after the foreach over the loops of FillMeshHoles. */
  function AfterLoops(s: RepairState, loops: seq<HoleLoop>, maxHoleSize: real, area: seq<Point3> -> real,
                      f6: real -> string): RepairState
  {
    s.(faces := s.faces + FilledFaces(loops, maxHoleSize, area),
       holesFilled := s.holesFilled + FilledCount(loops, maxHoleSize, area),
       warnings := s.warnings + SkipWarnings(loops, maxHoleSize, area, f6))
  }

  /** One more loop continues the state of the loops before it. */
  lemma AfterLoopsSnoc(s: RepairState, loops: seq<HoleLoop>, l: HoleLoop, maxHoleSize: real, area: seq<Point3> -> real,
                       f6: real -> string)
    ensures AfterLoops(s, loops + [l], maxHoleSize, area, f6)
         == AfterLoops(AfterLoops(s, loops, maxHoleSize, area, f6), [l], maxHoleSize, area, f6)
  {
    var all := loops + [l];
    assert all[..|all| - 1] == loops && all[|all| - 1] == l;
    OneLoop(l, maxHoleSize, area, f6);
    assert FilledFaces(all, maxHoleSize, area) == FilledFaces(loops, maxHoleSize, area) + FilledFaces([l], maxHoleSize, area);
    assert SkipWarnings(all, maxHoleSize, area, f6) == SkipWarnings(loops, maxHoleSize, area, f6) + SkipWarnings([l], maxHoleSize, area, f6);
    AppendAssoc(s.faces, FilledFaces(loops, maxHoleSize, area), FilledFaces([l], maxHoleSize, area));
    AppendAssoc(s.warnings, SkipWarnings(loops, maxHoleSize, area, f6), SkipWarnings([l], maxHoleSize, area, f6));
  }

  /** A single loop: its faces when it is fillable, its warning when it is not. */
  lemma OneLoop(l: HoleLoop, maxHoleSize: real, area: seq<Point3> -> real, f6: real -> string)
    ensures FilledFaces([l], maxHoleSize, area) == if Fillable(l, maxHoleSize, area) then HoleFaces(l.vertexIndices) else []
    ensures FilledCount([l], maxHoleSize, area) == if Fillable(l, maxHoleSize, area) then 1 else 0
    ensures SkipWarnings([l], maxHoleSize, area, f6) == if Fillable(l, maxHoleSize, area) then [] else [SkipWarning(l, maxHoleSize, area, f6)]
  {
    assert [l][..0] == [];
  }

  /** The foreach over the loops of FillMeshHoles. */
  method FillLoops(mesh: Mesh, result: RepairResult, maxHoleSize: real, edgeLoops: seq<HoleLoop>,
                   area: seq<Point3> -> real, f6: real -> string)
    modifies mesh, result
    ensures StateOf(mesh, result) == AfterLoops(old(StateOf(mesh, result)), edgeLoops, maxHoleSize, area, f6)
  {
    ghost var s0 := StateOf(mesh, result);
    for k := 0 to |edgeLoops|
      invariant StateOf(mesh, result) == AfterLoops(s0, edgeLoops[..k], maxHoleSize, area, f6)
    {
      PrefixStep(edgeLoops, k);
      AfterLoopsSnoc(s0, edgeLoops[..k], edgeLoops[k], maxHoleSize, area, f6);
      FillOneLoop(mesh, result, maxHoleSize, edgeLoops[k], area, f6);
    }
    PrefixWhole(edgeLoops);
  }

  /** One loop: a degenerate or large hole is skipped with a warning; any other is filled. */
  method FillOneLoop(mesh: Mesh, result: RepairResult, maxHoleSize: real, loop: HoleLoop,
                     area: seq<Point3> -> real, f6: real -> string)
    modifies mesh, result
    ensures StateOf(mesh, result) == AfterLoops(old(StateOf(mesh, result)), [loop], maxHoleSize, area, f6)
  {
    OneLoop(loop, maxHoleSize, area, f6);
    if |loop.vertexIndices| < 3 {
      result.warnings := result.warnings + ["Skipping degenerate hole with " + IntToString(|loop.vertexIndices|) + " vertices"];
      return;
    }
    var holeArea := area(loop.points);
    if holeArea > maxHoleSize {
      result.warnings := result.warnings + ["Skipping large hole (area: " + f6(holeArea) + ", max: " + f6(maxHoleSize) + ")"];
      return;
    }
    var filled := TryFillHole(mesh, Some(loop.vertexIndices));
    if filled {
      result.holesFilled := result.holesFilled + 1;
    }
  }

  // ---------------------------------------------------------------------
  // RepairMesh
  // ---------------------------------------------------------------------

  /** RepairMesh: options default when missing; each stage runs only if its flag is set, in the order fill holes,
      fix non-manifold edges, remove duplicates, heal naked edges; Success is whether no error was recorded. */
  function RepairOutcome(faces: seq<MeshFace>, options: Option<RepairOptions>, nakedEdges: Option<seq<Polyline>>,
                         vertexIndexOf: Point3 -> int, area: seq<Point3> -> real, f6: real -> string): RepairState
  {
    var o := OptionsOrDefault(options);
    var s0 := InitialState(faces);
    var s1 := if o.fillHoles then FillStage(s0, o.maxHoleSize, nakedEdges, vertexIndexOf, area, f6) else s0;
    var s2 := if o.removeDuplicateFaces then RemoveDuplicatesStage(s1) else s1;
    var s3 := if o.healNakedEdges then HealStage(s2) else s2;
    s3.(success := |s3.errors| == 0)
  }

  method RepairMesh(mesh: Mesh, options: Option<RepairOptions>, nakedEdges: Option<seq<Polyline>>,
                    vertexIndexOf: Point3 -> int, area: seq<Point3> -> real, f6: real -> string)
    returns (result: RepairResult)
    modifies mesh
    ensures fresh(result)
    ensures StateOf(mesh, result) == RepairOutcome(old(mesh.faces), options, nakedEdges, vertexIndexOf, area, f6)
  {
    var o := if options.None? then DefaultRepairOptions else options.value;
    result := new RepairResult();
    if o.fillHoles {
      FillMeshHoles(mesh, result, o, nakedEdges, vertexIndexOf, area, f6);
    }
    if o.fixNonManifoldEdges {
      FixNonManifoldEdges(mesh, result);
    }
    if o.removeDuplicateFaces {
      RemoveDuplicateFaces(mesh, result);
    }
    if o.healNakedEdges {
      HealNakedEdges(mesh, result);
    }
    result.success := |result.errors| == 0;
  }

  /** No stage records an error, so a repair always succeeds; nothing fixes non-manifold edges or heals naked edges;
      a disabled fill counts no holes and a disabled removal counts no duplicates. */
  lemma RepairSucceeds(faces: seq<MeshFace>, options: Option<RepairOptions>, nakedEdges: Option<seq<Polyline>>,
                       vertexIndexOf: Point3 -> int, area: seq<Point3> -> real, f6: real -> string)
    ensures var r := RepairOutcome(faces, options, nakedEdges, vertexIndexOf, area, f6);
      var o := OptionsOrDefault(options);
      && r.success && r.errors == []
      && r.nonManifoldEdgesFixed == 0 && r.nakedEdgesHealed == 0
      && (!o.fillHoles ==> r.holesFilled == 0)
      && (!o.removeDuplicateFaces ==> r.duplicateFacesRemoved == 0)
      && (!o.fillHoles && !o.removeDuplicateFaces ==> r.faces == faces)
  {
    var o := OptionsOrDefault(options);
    FillStageFacts(InitialState(faces), o.maxHoleSize, nakedEdges, vertexIndexOf, area, f6);
  }

  /** An enabled removal leaves faces of pairwise different signatures, and healing, when enabled, adds the last warning. */
  lemma RepairStageEffects(faces: seq<MeshFace>, options: Option<RepairOptions>, nakedEdges: Option<seq<Polyline>>,
                           vertexIndexOf: Point3 -> int, area: seq<Point3> -> real, f6: real -> string)
    ensures var r := RepairOutcome(faces, options, nakedEdges, vertexIndexOf, area, f6);
      var o := OptionsOrDefault(options);
      && (o.removeDuplicateFaces ==> Distinct(MapSeq(r.faces, Signature)))
      && (o.healNakedEdges ==> |r.warnings| > 0 && r.warnings[|r.warnings| - 1] == HealWarning)
  {
    var o := OptionsOrDefault(options);
    var s0 := InitialState(faces);
    var s1 := if o.fillHoles then FillStage(s0, o.maxHoleSize, nakedEdges, vertexIndexOf, area, f6) else s0;
    var s2 := if o.removeDuplicateFaces then RemoveDuplicatesStage(s1) else s1;
    var s3 := if o.healNakedEdges then HealStage(s2) else s2;
    assert RepairOutcome(faces, options, nakedEdges, vertexIndexOf, area, f6) == s3.(success := |s3.errors| == 0);
    if o.removeDuplicateFaces {
      RemovalSurvivesHealing(s1, o.healNakedEdges);
    }
  }

  /** Healing adds only a warning, so the faces left by duplicate removal stay pairwise different. */
  lemma RemovalSurvivesHealing(s1: RepairState, heal: bool)
    ensures var s2 := RemoveDuplicatesStage(s1);
      var s3 := if heal then HealStage(s2) else s2;
      Distinct(MapSeq(s3.faces, Signature))
  {
    RemoveDuplicatesFacts(s1);
  }

  /** With the default options the holes are filled and the duplicates removed, but healing is off. */
  lemma DefaultRepair(faces: seq<MeshFace>, nakedEdges: Option<seq<Polyline>>,
                      vertexIndexOf: Point3 -> int, area: seq<Point3> -> real, f6: real -> string)
    ensures var r := RepairOutcome(faces, None, nakedEdges, vertexIndexOf, area, f6);
      var s1 := FillStage(InitialState(faces), DoubleMax, nakedEdges, vertexIndexOf, area, f6);
      r == RemoveDuplicatesStage(s1).(success := true)
  {
    FillStageFacts(InitialState(faces), DoubleMax, nakedEdges, vertexIndexOf, area, f6);
    RemoveDuplicatesFacts(FillStage(InitialState(faces), DoubleMax, nakedEdges, vertexIndexOf, area, f6));
  }
}
