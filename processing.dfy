// The two processing front ends that turn loose inputs into domain objects:
// AssemblyBuilder gathers the non-null parts into an assembly, and
// PartCreationProcessor turns meshes or breps into parts or part geometries.
// Both count every input as exactly one success or one failure.
module Processing {
  import opened Common
  import opened DomainEntities

  datatype Level = Remark | Warning | Error

  datatype ProcessingMessage = ProcessingMessage(level: Level, text: string)

  predicate EndsWith(s: string, suffix: string)
  {
    |suffix| <= |s| && s[|s| - |suffix|..] == suffix
  }

  // ---------------------------------------------------------------------
  // AssemblyBuilder
  // ---------------------------------------------------------------------

  /** The non-null entries, in input order. */
  function ValidParts(ps: seq<Option<PartEntity>>): (r: seq<PartEntity>)
    ensures |r| <= |ps|
    ensures forall p :: p in r <==> Some(p) in ps
  {
    if ps == [] then []
    else
      var rest := ValidParts(ps[1..]);
      assert forall i :: 1 <= i < |ps| ==> ps[1..][i - 1] == ps[i];
      (if ps[0].Some? then [ps[0].value] else []) + rest
  }

  /** The condition AssemblyBuilder filters by: the entry is not null. */
  function NonNull(): Option<PartEntity> -> bool
  {
    (o: Option<PartEntity>) => o.Some?
  }

  /** ValidParts is partList.Where(p => p != null): the entries at the non-null positions, in order, repeats kept. */
  lemma {:induction false} ValidPartsInOrder(ps: seq<Option<PartEntity>>)
    ensures |ValidParts(ps)| == |Where(ps, NonNull())|
    ensures forall k :: 0 <= k < |ValidParts(ps)| ==> Some(ValidParts(ps)[k]) == Where(ps, NonNull())[k]
    ensures var pos := Positions(ps, NonNull());
      |ValidParts(ps)| == |pos| && forall k :: 0 <= k < |pos| ==> Some(ValidParts(ps)[k]) == ps[pos[k]]
  {
    if ps != [] {
      ValidPartsInOrder(ps[1..]);
    }
    WhereAtPositions(ps, NonNull());
  }

  /** The null entries. */
  function NullCount(ps: seq<Option<PartEntity>>): (n: nat)
  {
    if ps == [] then 0 else (if ps[0].None? then 1 else 0) + NullCount(ps[1..])
  }

  /** Every entry is either kept or counted as a failure. */
  lemma {:induction false} ValidPlusNull(ps: seq<Option<PartEntity>>)
    ensures |ValidParts(ps)| + NullCount(ps) == |ps|
  {
    if ps != [] {
      ValidPlusNull(ps[1..]);
    }
  }

  /** The assembly name: "Assembly" for a blank base name, else the trimmed base name. */
  function AssemblyName(baseName: Option<string>): (name: string)
    ensures name != []
  {
    if baseName.None? || IsBlank(baseName.value) then "Assembly"
    else
      TrimEmptyIff(baseName.value);
      Trim(baseName.value)
  }

  const NoValidPartsMessage := "No valid parts found."

  function SkippedMessage(failures: int): string
  {
    "Skipped " + IntToString(failures) + " invalid part entries."
  }

  /** The closing remark of a successful build. */
  function CreatedReport(name: string, successes: int, failures: int): string
  {
    "Created assembly '" + name + "' with " + IntToString(successes) + " parts"
      + (if failures > 0 then ", " + IntToString(failures) + " failed" else "")
  }

  /** The messages of Build: the skip warning when something failed, then the error or the report. */
  function BuildMessages(name: string, successes: nat, failures: nat): (r: seq<ProcessingMessage>)
    ensures |r| == (if failures > 0 then 2 else 1)
    ensures failures > 0 <==> r[0] == ProcessingMessage(Warning, SkippedMessage(failures))
    ensures successes == 0 ==> r[|r| - 1] == ProcessingMessage(Error, NoValidPartsMessage)
    ensures successes > 0 ==> r[|r| - 1] == ProcessingMessage(Remark, CreatedReport(name, successes, failures))
    ensures successes > 0 <==> r[|r| - 1].level == Remark
  {
    var skipped := if failures > 0 then [ProcessingMessage(Warning, SkippedMessage(failures))] else [];
    skipped + [if successes == 0 then ProcessingMessage(Error, NoValidPartsMessage)
               else ProcessingMessage(Remark, CreatedReport(name, successes, failures))]
  }

  /** AssemblyCreationResult. */
  datatype AssemblyCreationResult = AssemblyCreationResult(
    assembly: Option<Assembly>, successCount: int, failureCount: int, messages: seq<ProcessingMessage>)
  {
    predicate HasAssembly() { assembly.Some? }
  }

  /** CreateAssembly: a new assembly with Id 0 and the name, then AddPart for each part in order. */
  method CreateAssembly(name: string, parts: seq<PartEntity>) returns (a: Assembly)
    ensures fresh(a)
    ensures a.id == 0 && a.name == name && a.description.None?
    ensures a.parts == parts && a.subAssemblies == []
  {
    a := new Assembly(0, Some(name), None);
    for i := 0 to |parts|
      invariant a.id == 0 && a.name == name && a.description.None?
      invariant a.parts == parts[..i] && a.subAssemblies == []
    {
      var err := a.AddPart(Some(parts[i]));
      assert parts[..i + 1] == parts[..i] + [parts[i]];
    }
    assert parts[..|parts|] == parts;
  }

  /** AssemblyBuilder.Build. */
  method Build(baseName: Option<string>, parts: Option<seq<Option<PartEntity>>>) returns (r: Result<AssemblyCreationResult, Exception>)
    ensures parts.None? <==> r == Err(ArgumentNullException("parts"))
    ensures r.Ok? ==> r.value.successCount == |ValidParts(parts.value)| && r.value.failureCount == NullCount(parts.value)
    ensures r.Ok? ==> r.value.successCount + r.value.failureCount == |parts.value|
    ensures r.Ok? ==> (r.value.HasAssembly() <==> |ValidParts(parts.value)| > 0)
    ensures r.Ok? && r.value.HasAssembly() ==>
      && fresh(r.value.assembly.value)
      && r.value.assembly.value.parts == ValidParts(parts.value)
      && r.value.assembly.value.name == AssemblyName(baseName)
      && r.value.assembly.value.id == 0 && r.value.assembly.value.subAssemblies == []
    ensures r.Ok? ==> r.value.messages == BuildMessages(AssemblyName(baseName), r.value.successCount, r.value.failureCount)
  {
    if parts.None? {
      return Err(ArgumentNullException("parts"));
    }
    var name := AssemblyName(baseName);
    var validParts := ValidParts(parts.value);
    var failureCount := |parts.value| - |validParts|;
    ValidPlusNull(parts.value);
    var result;
    if |validParts| == 0 {
      result := AssemblyCreationResult(None, 0, failureCount, []);
    } else {
      var a := CreateAssembly(name, validParts);
      result := AssemblyCreationResult(Some(a), |validParts|, failureCount, []);
    }
    if failureCount > 0 {
      result := result.(messages := result.messages + [ProcessingMessage(Warning, SkippedMessage(failureCount))]);
    }
    assert result.messages == if failureCount > 0 then [ProcessingMessage(Warning, SkippedMessage(failureCount))] else [];
    if !result.HasAssembly() {
      result := result.(messages := result.messages + [ProcessingMessage(Error, NoValidPartsMessage)]);
      return Ok(result);
    }
    var report := "Created assembly '" + name + "' with " + IntToString(result.successCount) + " parts";
    if failureCount > 0 {
      report := report + ", " + IntToString(failureCount) + " failed";
    } else {
      assert report + "" == report;
    }
    assert report == CreatedReport(name, result.successCount, failureCount);
    result := result.(messages := result.messages + [ProcessingMessage(Remark, report)]);
    return Ok(result);
  }

  // ---------------------------------------------------------------------
  // PartCreationProcessor: inputs and items
  // ---------------------------------------------------------------------

  /** A Rhino mesh as this code sees it: its validity and its vertex and face counts. */
  datatype MeshInfo = MeshInfo(valid: bool, vertexCount: nat, faceCount: nat)

  /**
   * A brep: its validity, what Mesh.CreateFromBrep returns for it (null or the
   * meshes, some of which may be null), and whether the merged mesh is valid.
   */
  datatype BrepInfo = BrepInfo(valid: bool, meshing: Option<seq<Option<MeshInfo>>>, mergedValid: bool)

  /** Physics properties with their current-culture F3 mass and F2 friction renderings. */
  datatype Physics = Physics(mass: real, friction: real, massF3: string, frictionF2: string)

  datatype PartCreationOptions = PartCreationOptions(baseName: Option<string>, includePhysics: bool, physics: Option<Physics>)
  {
    /** Physics is applied when it is requested and supplied. */
    predicate WithPhysics() { includePhysics && physics.Some? }
  }

  /** The kind of source a part geometry came from. */
  datatype SourceKind = MeshSource | BrepSource

  datatype PartGeometry = PartGeometry(partId: int, mesh: MeshInfo, name: string, source: SourceKind)

  /** A created item: a Part with physics, or the bare PartGeometry. */
  datatype CreatedItem = PartItem(id: int, name: string, geometry: PartGeometry, physics: Physics) | GeometryItem(geometry: PartGeometry)

  /** CreatePartName. */
  function CreatePartName(baseName: Option<string>, index: int): (name: string)
    ensures baseName.None? || IsBlank(baseName.value) ==> name == "Part_" + IntToString(index)
    ensures baseName.Some? && !IsBlank(baseName.value) ==> name == baseName.value + "_" + IntToString(index)
  {
    if baseName.None? || IsBlank(baseName.value) then "Part_" + IntToString(index)
    else baseName.value + "_" + IntToString(index)
  }

  function KindText(source: SourceKind): string
  {
    if source == MeshSource then "mesh" else "brep"
  }

  function InvalidMessage(source: SourceKind, index: int): ProcessingMessage
  {
    ProcessingMessage(Warning, "Invalid " + KindText(source) + " at index " + IntToString(index) + ", skipping.")
  }

  function MeshingFailedMessage(index: int): ProcessingMessage
  {
    ProcessingMessage(Warning, "Meshing failed at index " + IntToString(index) + ", skipping.")
  }

  function MergedInvalidMessage(index: int): ProcessingMessage
  {
    ProcessingMessage(Warning, "Generated mesh invalid at index " + IntToString(index) + ", skipping.")
  }

  /** The remark of AddPartOrGeometry. */
  function CreatedMessage(g: PartGeometry, options: PartCreationOptions): ProcessingMessage
  {
    if options.WithPhysics() then
      ProcessingMessage(Remark, "Created Part '" + g.name + "' with physics: mass=" + options.physics.value.massF3
        + "kg, friction=" + options.physics.value.frictionF2)
    else
      ProcessingMessage(Remark, "Created Part '" + g.name + "' with " + IntToString(g.mesh.vertexCount) + " vertices, "
        + IntToString(g.mesh.faceCount) + " faces")
  }

  /** The item AddPartOrGeometry adds: a Part exactly when physics is applied. */
  function ItemFor(g: PartGeometry, options: PartCreationOptions): (item: CreatedItem)
    ensures item.PartItem? <==> options.WithPhysics()
    ensures item.geometry == g
    ensures item.PartItem? ==> item.id == g.partId && item.name == g.name && item.physics == options.physics.value
  {
    if options.WithPhysics() then PartItem(g.partId, g.name, g, options.physics.value) else GeometryItem(g)
  }

  /** MergeMeshes: the non-null meshes appended into one; its validity comes with the brep. */
  function MergeMeshes(ms: seq<Option<MeshInfo>>, mergedValid: bool): (m: MeshInfo)
    ensures m.valid == mergedValid
    ensures ms == [] ==> m.vertexCount == 0 && m.faceCount == 0
  {
    if ms == [] then MeshInfo(mergedValid, 0, 0)
    else
      var rest := MergeMeshes(ms[1..], mergedValid);
      if ms[0].None? then rest
      else MeshInfo(mergedValid, ms[0].value.vertexCount + rest.vertexCount, ms[0].value.faceCount + rest.faceCount)
  }

  // ---------------------------------------------------------------------
  // PartCreationProcessor: the result and its updates
  // ---------------------------------------------------------------------

  /** What one input contributes: an item and its remark, or a warning. */
  datatype Outcome = Made(item: CreatedItem, message: ProcessingMessage) | Skipped(message: ProcessingMessage)

  /** ProcessMesh, as its effect on the result. */
  function MeshOutcome(mesh: Option<MeshInfo>, index: int, options: PartCreationOptions): (o: Outcome)
    ensures o.Made? <==> mesh.Some? && mesh.value.valid
    ensures o.Skipped? ==> o.message == InvalidMessage(MeshSource, index)
  {
    if mesh.None? || !mesh.value.valid then Skipped(InvalidMessage(MeshSource, index))
    else
      var g := PartGeometry(index, mesh.value, CreatePartName(options.baseName, index), MeshSource);
      Made(ItemFor(g, options), CreatedMessage(g, options))
  }

  /** ProcessBrep, as its effect on the result. */
  function BrepOutcome(brep: Option<BrepInfo>, index: int, options: PartCreationOptions): (o: Outcome)
    ensures o.Made? <==> brep.Some? && brep.value.valid && brep.value.meshing.Some? && |brep.value.meshing.value| > 0
                         && brep.value.mergedValid
    ensures brep.None? || !brep.value.valid ==> o == Skipped(InvalidMessage(BrepSource, index))
    ensures brep.Some? && brep.value.valid && (brep.value.meshing.None? || |brep.value.meshing.value| == 0) ==>
              o == Skipped(MeshingFailedMessage(index))
    ensures (brep.Some? && brep.value.valid && brep.value.meshing.Some? && |brep.value.meshing.value| > 0
             && !brep.value.mergedValid) ==> o == Skipped(MergedInvalidMessage(index))
  {
    if brep.None? || !brep.value.valid then Skipped(InvalidMessage(BrepSource, index))
    else if brep.value.meshing.None? || |brep.value.meshing.value| == 0 then Skipped(MeshingFailedMessage(index))
    else
      var merged := MergeMeshes(brep.value.meshing.value, brep.value.mergedValid);
      if !merged.valid then Skipped(MergedInvalidMessage(index))
      else
        var g := PartGeometry(index, merged, CreatePartName(options.baseName, index), BrepSource);
        Made(ItemFor(g, options), CreatedMessage(g, options))
  }

  /** The contents of a PartCreationResult. */
  datatype CreationState = CreationState(items: seq<CreatedItem>, messages: seq<ProcessingMessage>, successCount: int, failureCount: int)

  /** One outcome recorded in the result. */
  function Record(s: CreationState, o: Outcome): CreationState
  {
    match o
    case Made(item, message) => CreationState(s.items + [item], s.messages + [message], s.successCount + 1, s.failureCount)
    case Skipped(message) => CreationState(s.items, s.messages + [message], s.successCount, s.failureCount + 1)
  }

  /** The outcomes recorded in order, starting from an empty result. */
  function RecordAll(os: seq<Outcome>): CreationState
  {
    if os == [] then CreationState([], [], 0, 0) else Record(RecordAll(os[..|os| - 1]), os[|os| - 1])
  }

  function MadeCount(os: seq<Outcome>): nat
  {
    if os == [] then 0 else MadeCount(os[..|os| - 1]) + (if os[|os| - 1].Made? then 1 else 0)
  }

  /** The items of the outcomes that made one, in order. */
  function ItemsOf(os: seq<Outcome>): seq<CreatedItem>
  {
    if os == [] then [] else ItemsOf(os[..|os| - 1]) + (if os[|os| - 1].Made? then [os[|os| - 1].item] else [])
  }

  /** One message per input, successes and failures counted, and the items are those made. */
  lemma {:induction false} RecordAllCounts(os: seq<Outcome>)
    ensures RecordAll(os).successCount == MadeCount(os)
    ensures RecordAll(os).successCount + RecordAll(os).failureCount == |os|
    ensures RecordAll(os).items == ItemsOf(os) && |ItemsOf(os)| == MadeCount(os)
    ensures |RecordAll(os).messages| == |os|
    ensures forall k :: 0 <= k < |os| ==> RecordAll(os).messages[k] == os[k].message
  {
    if os != [] {
      var init := os[..|os| - 1];
      RecordAllCounts(init);
      assert forall k :: 0 <= k < |init| ==> init[k] == os[k];
    }
  }

  lemma RecordSnoc(os: seq<Outcome>, o: Outcome)
    ensures RecordAll(os + [o]) == Record(RecordAll(os), o)
  {
    assert (os + [o])[..|os + [o]| - 1] == os;
  }

  /** The closing remark of FinalizeResult. */
  function SummaryText(successes: int, failures: int, withPhysics: bool): string
  {
    "Created " + IntToString(successes) + " Part objects"
      + (if failures > 0 then ", " + IntToString(failures) + " failed" else "")
      + (if withPhysics then " (with physics)" else "")
  }

  const PhysicsSuffix := " (with physics)"

  /** The summary announces physics exactly when it was applied. */
  lemma SummaryPhysicsIff(successes: int, failures: int, withPhysics: bool)
    ensures EndsWith(SummaryText(successes, failures, withPhysics), PhysicsSuffix) <==> withPhysics
  {
    var base := "Created " + IntToString(successes) + " Part objects";
    var s := SummaryText(successes, failures, withPhysics);
    if withPhysics {
      assert s == (base + (if failures > 0 then ", " + IntToString(failures) + " failed" else "")) + PhysicsSuffix;
    } else if failures > 0 {
      assert s[|s| - 1] == 'd';
    } else {
      assert s == base;
      assert s[|s| - 1] == 's';
    }
  }

  function NoInputMessage(source: SourceKind): ProcessingMessage
  {
    ProcessingMessage(Error, if source == MeshSource then "No mesh geometry provided." else "No brep geometry provided.")
  }

  /** FromMeshes / FromBreps on the outcomes of the inputs: one error for no input, else the outcomes and the summary. */
  function CreationOf(os: seq<Outcome>, source: SourceKind, options: PartCreationOptions): CreationState
  {
    if os == [] then CreationState([], [NoInputMessage(source)], 0, 0)
    else
      var s := RecordAll(os);
      s.(messages := s.messages + [ProcessingMessage(Remark, SummaryText(s.successCount, s.failureCount, options.WithPhysics()))])
  }

  function MeshOutcomes(meshes: seq<Option<MeshInfo>>, options: PartCreationOptions): (os: seq<Outcome>)
    ensures |os| == |meshes| && forall i :: 0 <= i < |meshes| ==> os[i] == MeshOutcome(meshes[i], i, options)
  {
    seq(|meshes|, i requires 0 <= i < |meshes| => MeshOutcome(meshes[i], i, options))
  }

  function BrepOutcomes(breps: seq<Option<BrepInfo>>, options: PartCreationOptions): (os: seq<Outcome>)
    ensures |os| == |breps| && forall i :: 0 <= i < |breps| ==> os[i] == BrepOutcome(breps[i], i, options)
  {
    seq(|breps|, i requires 0 <= i < |breps| => BrepOutcome(breps[i], i, options))
  }

  /** With no input there is exactly one message, an error, and nothing is counted. */
  lemma NoInputFacts(source: SourceKind, options: PartCreationOptions)
    ensures |CreationOf([], source, options).messages| == 1
    ensures CreationOf([], source, options).messages[0].level == Error
    ensures CreationOf([], source, options).successCount == 0 && CreationOf([], source, options).failureCount == 0
    ensures CreationOf([], source, options).items == []
  {
  }

  /**
   * Every input counts once, each input leaves its own message in order, the
   * last message is the summary, and every item is a Part exactly when physics
   * is applied.
   */
  lemma CreationFacts(os: seq<Outcome>, source: SourceKind, options: PartCreationOptions)
    requires os != []
    requires forall k :: 0 <= k < |os| ==> os[k].Made? ==> os[k].item.geometry.source == source && (os[k].item.PartItem? <==> options.WithPhysics())
    ensures var c := CreationOf(os, source, options);
      && c.successCount + c.failureCount == |os|
      && c.successCount == MadeCount(os) && |c.items| == c.successCount
      && |c.messages| == |os| + 1
      && (forall k :: 0 <= k < |os| ==> c.messages[k] == os[k].message)
      && c.messages[|os|] == ProcessingMessage(Remark, SummaryText(c.successCount, c.failureCount, options.WithPhysics()))
      && (EndsWith(c.messages[|os|].text, PhysicsSuffix) <==> options.WithPhysics())
  {
    RecordAllCounts(os);
    var s := RecordAll(os);
    SummaryPhysicsIff(s.successCount, s.failureCount, options.WithPhysics());
  }

  /** The outcomes of meshes meet the side condition of CreationFacts. */
  lemma MeshOutcomesUniform(meshes: seq<Option<MeshInfo>>, options: PartCreationOptions)
    ensures var os := MeshOutcomes(meshes, options);
      forall k :: 0 <= k < |os| ==> os[k].Made? ==> os[k].item.geometry.source == MeshSource && (os[k].item.PartItem? <==> options.WithPhysics())
  {
  }

  lemma BrepOutcomesUniform(breps: seq<Option<BrepInfo>>, options: PartCreationOptions)
    ensures var os := BrepOutcomes(breps, options);
      forall k :: 0 <= k < |os| ==> os[k].Made? ==> os[k].item.geometry.source == BrepSource && (os[k].item.PartItem? <==> options.WithPhysics())
  {
  }

  /** PartCreationResult: the lists and counters the processing steps update. */
  class PartCreationResult {
    var createdItems: seq<CreatedItem>
    var messages: seq<ProcessingMessage>
    var successCount: int
    var failureCount: int

    constructor()
      ensures State() == CreationState([], [], 0, 0)
    {
      createdItems := [];
      messages := [];
      successCount := 0;
      failureCount := 0;
    }

    function State(): CreationState
      reads this
    {
      CreationState(createdItems, messages, successCount, failureCount)
    }
  }

  method RegisterInvalidGeometry(result: PartCreationResult, index: int, source: SourceKind)
    modifies result
    ensures result.State() == Record(old(result.State()), Skipped(InvalidMessage(source, index)))
  {
    result.messages := result.messages + [InvalidMessage(source, index)];
    result.failureCount := result.failureCount + 1;
  }

  method AddPartOrGeometry(g: PartGeometry, options: PartCreationOptions, result: PartCreationResult)
    modifies result
    ensures result.State() == Record(old(result.State()), Made(ItemFor(g, options), CreatedMessage(g, options)))
  {
    if options.includePhysics && options.physics.Some? {
      var part := PartItem(g.partId, g.name, g, options.physics.value);
      result.createdItems := result.createdItems + [part];
    } else {
      result.createdItems := result.createdItems + [GeometryItem(g)];
    }
    result.messages := result.messages + [CreatedMessage(g, options)];
    result.successCount := result.successCount + 1;
  }

  method ProcessMesh(mesh: Option<MeshInfo>, index: int, options: PartCreationOptions, result: PartCreationResult)
    modifies result
    ensures result.State() == Record(old(result.State()), MeshOutcome(mesh, index, options))
  {
    if mesh.None? {
      RegisterInvalidGeometry(result, index, MeshSource);
      return;
    }
    var workingMesh := mesh.value;
    if !workingMesh.valid {
      RegisterInvalidGeometry(result, index, MeshSource);
      return;
    }
    var partName := CreatePartName(options.baseName, index);
    var g := PartGeometry(index, workingMesh, partName, MeshSource);
    AddPartOrGeometry(g, options, result);
  }

  method ProcessBrep(brep: Option<BrepInfo>, index: int, options: PartCreationOptions, result: PartCreationResult)
    modifies result
    ensures result.State() == Record(old(result.State()), BrepOutcome(brep, index, options))
  {
    if brep.None? || !brep.value.valid {
      RegisterInvalidGeometry(result, index, BrepSource);
      return;
    }
    var meshes := brep.value.meshing;
    if meshes.None? || |meshes.value| == 0 {
      result.messages := result.messages + [MeshingFailedMessage(index)];
      result.failureCount := result.failureCount + 1;
      return;
    }
    var merged := MergeMeshes(meshes.value, brep.value.mergedValid);
    if !merged.valid {
      result.messages := result.messages + [MergedInvalidMessage(index)];
      result.failureCount := result.failureCount + 1;
      return;
    }
    var partName := CreatePartName(options.baseName, index);
    var g := PartGeometry(index, merged, partName, BrepSource);
    AddPartOrGeometry(g, options, result);
  }

  method FinalizeResult(options: PartCreationOptions, result: PartCreationResult)
    modifies result
    ensures result.State() == old(result.State()).(messages := old(result.messages)
      + [ProcessingMessage(Remark, SummaryText(old(result.successCount), old(result.failureCount), options.WithPhysics()))])
  {
    var report := "Created " + IntToString(result.successCount) + " Part objects";
    ghost var failed := if result.failureCount > 0 then ", " + IntToString(result.failureCount) + " failed" else "";
    ghost var physics := if options.WithPhysics() then " (with physics)" else "";
    assert SummaryText(result.successCount, result.failureCount, options.WithPhysics()) == report + failed + physics;
    if result.failureCount > 0 {
      report := report + ", " + IntToString(result.failureCount) + " failed";
    } else {
      assert report + "" == report;
    }
    assert report == "Created " + IntToString(result.successCount) + " Part objects" + failed;
    if options.includePhysics && options.physics.Some? {
      report := report + " (with physics)";
    } else {
      assert report + "" == report;
    }
    result.messages := result.messages + [ProcessingMessage(Remark, report)];
  }

  /** One turn of that loop: input i is recorded after the ones before it. */
  method RecordMeshAt(meshList: seq<Option<MeshInfo>>, i: nat, opts: PartCreationOptions, result: PartCreationResult, ghost os: seq<Outcome>)
    modifies result
    requires i < |meshList| == |os| && os[i] == MeshOutcome(meshList[i], i, opts)
    requires result.State() == RecordAll(os[..i])
    ensures result.State() == RecordAll(os[..i + 1])
  {
    ProcessMesh(meshList[i], i, opts, result);
    assert os[..i + 1] == os[..i] + [os[i]];
    RecordSnoc(os[..i], os[i]);
  }

  /** The loop of FromMeshes: every input recorded in order. */
  method ProcessAllMeshes(meshList: seq<Option<MeshInfo>>, opts: PartCreationOptions, result: PartCreationResult, ghost os: seq<Outcome>)
    modifies result
    requires result.State() == CreationState([], [], 0, 0)
    requires os == MeshOutcomes(meshList, opts)
    ensures result.State() == RecordAll(os)
  {
    for i := 0 to |meshList|
      invariant result.State() == RecordAll(os[..i])
    {
      RecordMeshAt(meshList, i, opts, result, os);
    }
    assert os[..|meshList|] == os;
  }

  /** PartCreationProcessor.FromMeshes. */
  method FromMeshes(meshes: Option<seq<Option<MeshInfo>>>, options: Option<PartCreationOptions>)
    returns (r: Result<PartCreationResult, Exception>)
    ensures meshes.None? ==> r == Err(ArgumentNullException("meshes"))
    ensures meshes.Some? && options.None? ==> r == Err(ArgumentNullException("options"))
    ensures r.Ok? <==> meshes.Some? && options.Some?
    ensures r.Ok? ==>
      && fresh(r.value)
      && r.value.State() == CreationOf(MeshOutcomes(meshes.value, options.value), MeshSource, options.value)
  {
    if meshes.None? {
      return Err(ArgumentNullException("meshes"));
    }
    if options.None? {
      return Err(ArgumentNullException("options"));
    }
    var opts := options.value;
    var result := new PartCreationResult();
    var meshList := meshes.value;
    ghost var os := MeshOutcomes(meshList, opts);
    if |meshList| == 0 {
      result.messages := result.messages + [NoInputMessage(MeshSource)];
      return Ok(result);
    }
    ProcessAllMeshes(meshList, opts, result, os);
    FinalizeResult(opts, result);
    return Ok(result);
  }

  /** One turn of that loop: input i is recorded after the ones before it. */
  method RecordBrepAt(brepList: seq<Option<BrepInfo>>, i: nat, opts: PartCreationOptions, result: PartCreationResult, ghost os: seq<Outcome>)
    modifies result
    requires i < |brepList| == |os| && os[i] == BrepOutcome(brepList[i], i, opts)
    requires result.State() == RecordAll(os[..i])
    ensures result.State() == RecordAll(os[..i + 1])
  {
    ProcessBrep(brepList[i], i, opts, result);
    assert os[..i + 1] == os[..i] + [os[i]];
    RecordSnoc(os[..i], os[i]);
  }

  /** The loop of FromBreps: every input recorded in order. */
  method ProcessAllBreps(brepList: seq<Option<BrepInfo>>, opts: PartCreationOptions, result: PartCreationResult, ghost os: seq<Outcome>)
    modifies result
    requires result.State() == CreationState([], [], 0, 0)
    requires os == BrepOutcomes(brepList, opts)
    ensures result.State() == RecordAll(os)
  {
    for i := 0 to |brepList|
      invariant result.State() == RecordAll(os[..i])
    {
      RecordBrepAt(brepList, i, opts, result, os);
    }
    assert os[..|brepList|] == os;
  }

  /** PartCreationProcessor.FromBreps. */
  method FromBreps(breps: Option<seq<Option<BrepInfo>>>, options: Option<PartCreationOptions>)
    returns (r: Result<PartCreationResult, Exception>)
    ensures breps.None? ==> r == Err(ArgumentNullException("breps"))
    ensures breps.Some? && options.None? ==> r == Err(ArgumentNullException("options"))
    ensures r.Ok? <==> breps.Some? && options.Some?
    ensures r.Ok? ==>
      && fresh(r.value)
      && r.value.State() == CreationOf(BrepOutcomes(breps.value, options.value), BrepSource, options.value)
  {
    if breps.None? {
      return Err(ArgumentNullException("breps"));
    }
    if options.None? {
      return Err(ArgumentNullException("options"));
    }
    var opts := options.value;
    var result := new PartCreationResult();
    var brepList := breps.value;
    ghost var os := BrepOutcomes(brepList, opts);
    if |brepList| == 0 {
      result.messages := result.messages + [NoInputMessage(BrepSource)];
      return Ok(result);
    }
    ProcessAllBreps(brepList, opts, result, os);
    FinalizeResult(opts, result);
    return Ok(result);
  }
}
