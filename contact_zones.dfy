// The contact zone extractor: the face contacts of a contact list grouped by
// part, each part with its zone geometries and their planes, the unordered
// neighbour pairs, and the remarks and warnings of the pass.
module ContactZones {
  import opened Common
  import opened IntSets
  import opened ContactModels
  import opened Processing

  /** One zone of a part: the Brep or the Mesh of the zone (handles) and the contact plane. */
  datatype ContactFaceGeometry = ContactFaceGeometry(brep: Option<nat>, mesh: Option<nat>, plane: nat)

  /** The state of an extraction result: geometries and planes by part index, and the messages. */
  datatype Extraction = Extraction(
    geometries: map<int, seq<ContactFaceGeometry>>, planes: map<int, seq<nat>>, messages: seq<ProcessingMessage>)

  /** The list of a part, empty when the part has no entry yet. */
  function ListAt<T>(m: map<int, seq<T>>, k: int): seq<T>
  {
    if k in m then m[k] else []
  }

  /** The planes of a list of zones. */
  function PlanesOf(gs: seq<ContactFaceGeometry>): (r: seq<nat>)
    ensures |r| == |gs|
  {
    if gs == [] then [] else PlanesOf(gs[..|gs| - 1]) + [gs[|gs| - 1].plane]
  }

  /** Every part with geometries has planes and vice versa, and the planes are those of its zones. */
  predicate Balanced(st: Extraction)
  {
    && st.geometries.Keys == st.planes.Keys
    && forall k :: k in st.geometries ==> st.planes[k] == PlanesOf(st.geometries[k])
  }

  // ---------------------------------------------------------------------
  // AppendGeometry
  // ---------------------------------------------------------------------

  /** The `as Brep` and `as Mesh` casts: a zone for a Brep or a Mesh, nothing otherwise. */
  function FaceOf(geometry: GeometryKind, plane: nat): (r: Option<ContactFaceGeometry>)
    ensures r.Some? <==> geometry.BrepGeometry? || geometry.MeshGeometry?
    ensures r.Some? ==> r.value.plane == plane
    ensures r.Some? ==> (r.value.brep.Some? <==> geometry.BrepGeometry?) && (r.value.mesh.Some? <==> geometry.MeshGeometry?)
  {
    match geometry
    case BrepGeometry(b) => Some(ContactFaceGeometry(Some(b), None, plane))
    case MeshGeometry(m) => Some(ContactFaceGeometry(None, Some(m), plane))
    case _ => None
  }

  /** The run-time type name of an unknown geometry, "null" when there is none. */
  function GeometryTypeName(geometry: GeometryKind): string
  {
    match geometry
    case OtherGeometry(name) => name
    case _ => "null"
  }

  function UnknownGeometryMessage(geometry: GeometryKind): ProcessingMessage
  {
    ProcessingMessage(Warning, "Unknown geometry type: " + GeometryTypeName(geometry))
  }

  /** AppendGeometry: the part gets (possibly empty) lists, then the zone and its plane, or a warning. */
  function Appended(st: Extraction, partIndex: int, c: ContactData): Extraction
  {
    var gs := ListAt(st.geometries, partIndex);
    var ps := ListAt(st.planes, partIndex);
    match FaceOf(c.geometry, c.plane)
    case None =>
      Extraction(st.geometries[partIndex := gs], st.planes[partIndex := ps], st.messages + [UnknownGeometryMessage(c.geometry)])
    case Some(f) =>
      Extraction(st.geometries[partIndex := gs + [f]], st.planes[partIndex := ps + [c.plane]], st.messages)
  }

  /** What AppendGeometry does to every part: only the given one changes, by at most one zone. */
  lemma AppendedFacts(st: Extraction, partIndex: int, c: ContactData)
    ensures var r := Appended(st, partIndex, c);
      && r.geometries.Keys == st.geometries.Keys + {partIndex}
      && r.planes.Keys == st.planes.Keys + {partIndex}
      && (forall k :: k in st.geometries && k != partIndex ==> r.geometries[k] == st.geometries[k])
      && (FaceOf(c.geometry, c.plane).Some? ==> r.geometries[partIndex] == ListAt(st.geometries, partIndex) + [FaceOf(c.geometry, c.plane).value])
      && (FaceOf(c.geometry, c.plane).Some? ==> r.messages == st.messages)
      && (FaceOf(c.geometry, c.plane).None? ==> r.geometries[partIndex] == ListAt(st.geometries, partIndex))
      && (FaceOf(c.geometry, c.plane).None? ==> r.messages == st.messages + [UnknownGeometryMessage(c.geometry)])
  {
  }

  /** AppendGeometry keeps the geometry and plane lists in step. */
  lemma AppendedBalanced(st: Extraction, partIndex: int, c: ContactData)
    requires Balanced(st)
    ensures Balanced(Appended(st, partIndex, c))
  {
    var r := Appended(st, partIndex, c);
    var gs := ListAt(st.geometries, partIndex);
    assert ListAt(st.planes, partIndex) == PlanesOf(gs);
    match FaceOf(c.geometry, c.plane)
    case None =>
    case Some(f) =>
      assert (gs + [f])[..|gs + [f]| - 1] == gs;
      assert PlanesOf(gs + [f]) == PlanesOf(gs) + [c.plane];
  }

  // ---------------------------------------------------------------------
  // The loop over the face contacts
  // ---------------------------------------------------------------------

  /** The state of the loop: the extraction so far and the neighbour pairs seen. */
  datatype Scan = Scan(st: Extraction, pairs: set<(int, int)>)

  /** Null part ids render as empty text in the interpolated message. */
  function IdText(id: Option<string>): string
  {
    if id.None? then "" else id.value
  }

  function ParseFailureMessage(c: ContactData): ProcessingMessage
  {
    ProcessingMessage(Warning, "Failed to parse part indices from " + IdText(c.partAId) + " and " + IdText(c.partBId))
  }

  /** One face contact: a warning if an id does not parse, otherwise the pair and a zone for each part. */
  function Step(s: Scan, c: ContactData): Scan
  {
    match Parsed(c)
    case None => Scan(Extraction(s.st.geometries, s.st.planes, s.st.messages + [ParseFailureMessage(c)]), s.pairs)
    case Some(p) => Scan(Appended(Appended(s.st, p.0, c), p.1, c), s.pairs + {Normalised(p)})
  }

  function ScanAll(s: Scan, cs: seq<ContactData>): Scan
  {
    if cs == [] then s else Step(ScanAll(s, cs[..|cs| - 1]), cs[|cs| - 1])
  }

  // ---------------------------------------------------------------------
  // ExtractFaceContacts
  // ---------------------------------------------------------------------

  function FaceContacts(cs: seq<ContactData>): (r: seq<ContactData>)
    ensures |r| <= |cs|
    ensures forall c :: c in r <==> c in cs && c.contactType == FaceContact
  {
    if cs == [] then []
    else
      var rest := FaceContacts(cs[..|cs| - 1]);
      assert forall c :: c in cs <==> c in cs[..|cs| - 1] || c == cs[|cs| - 1];
      if cs[|cs| - 1].contactType == FaceContact then rest + [cs[|cs| - 1]] else rest
  }

  /** The condition the extractor filters by. */
  function IsFace(): ContactData -> bool
  {
    (c: ContactData) => c.contactType == FaceContact
  }

  /** FaceContacts is contacts.Where(c => c.Type == Face): the face contacts, in list order, repeats kept. */
  lemma {:induction false} FaceContactsInOrder(cs: seq<ContactData>)
    ensures FaceContacts(cs) == Where(cs, IsFace())
    ensures var pos := Positions(cs, IsFace());
      |FaceContacts(cs)| == |pos| && forall k :: 0 <= k < |pos| ==> FaceContacts(cs)[k] == cs[pos[k]]
  {
    if cs != [] {
      var init, last := cs[..|cs| - 1], cs[|cs| - 1];
      FaceContactsInOrder(init);
      assert init + [last] == cs;
      WhereConcat(init, [last], IsFace());
      assert [last][1..] == [];
    }
    WhereAtPositions(cs, IsFace());
  }

  function CountOfType(cs: seq<ContactData>, t: ContactType): nat
  {
    Count(cs, (c: ContactData) => c.contactType == t)
  }

  function CountsMessage(cs: seq<ContactData>): ProcessingMessage
  {
    ProcessingMessage(Remark,
      "Total contacts: " + IntToString(|cs|) + " (Face: " + IntToString(|FaceContacts(cs)|) + ", Edge: "
      + IntToString(CountOfType(cs, EdgeContact)) + ", Point: " + IntToString(CountOfType(cs, PointContact)) + ")")
  }

  const FaceContactsRequiredMessage := ProcessingMessage(Warning, "Only point/edge contacts were found; face contacts are required for zones output.")

  function PairsMessage(n: int): ProcessingMessage
  {
    ProcessingMessage(Remark, "Neighbor pairs: " + IntToString(n))
  }

  function ProcessedMessage(n: int): ProcessingMessage
  {
    ProcessingMessage(Remark, "Processed " + IntToString(n) + " parts with contact zones")
  }

  /** The result before the loop: no parts and the counts remark. */
  function Start(cs: seq<ContactData>): Extraction
  {
    Extraction(map[], map[], [CountsMessage(cs)])
  }

  /** Only point and edge contacts: the pass stops after a warning. */
  predicate StopsEarly(cs: seq<ContactData>)
  {
    |FaceContacts(cs)| == 0 && |cs| > 0
  }

  /** The whole pass over a contact list. */
  function ExtractionOf(cs: seq<ContactData>): Extraction
  {
    var st := Start(cs);
    if StopsEarly(cs) then Extraction(st.geometries, st.planes, st.messages + [FaceContactsRequiredMessage])
    else
      var s := ScanAll(Scan(st, {}), FaceContacts(cs));
      Extraction(s.st.geometries, s.st.planes,
        s.st.messages + [PairsMessage(|s.pairs|), ProcessedMessage(|s.st.geometries.Keys|)])
  }

  /** ContactZoneExtractionResult. */
  class ContactZoneExtractionResult {
    var partGeometries: map<int, seq<ContactFaceGeometry>>
    var partPlanes: map<int, seq<nat>>
    var messages: seq<ProcessingMessage>

    constructor()
      ensures State() == Extraction(map[], map[], [])
    {
      partGeometries := map[];
      partPlanes := map[];
      messages := [];
    }

    function State(): Extraction
      reads this
    {
      Extraction(partGeometries, partPlanes, messages)
    }

    /** PartIndices: the parts with geometry entries, ascending. */
    function PartIndices(): (r: seq<int>)
      reads this
      ensures StrictlyIncreasing(r)
      ensures forall k :: k in r <==> k in partGeometries
      ensures |r| == |partGeometries.Keys|
    {
      SortedOf(partGeometries.Keys)
    }
  }

  method AppendGeometry(result: ContactZoneExtractionResult, partIndex: int, contact: ContactData)
    modifies result
    ensures result.State() == Appended(old(result.State()), partIndex, contact)
  {
    var geometries := if partIndex in result.partGeometries then result.partGeometries[partIndex] else [];
    result.partGeometries := result.partGeometries[partIndex := geometries];
    var planes := if partIndex in result.partPlanes then result.partPlanes[partIndex] else [];
    result.partPlanes := result.partPlanes[partIndex := planes];
    var face := FaceOf(contact.geometry, contact.plane);
    if face.None? {
      result.messages := result.messages + [UnknownGeometryMessage(contact.geometry)];
      return;
    }
    result.partGeometries := result.partGeometries[partIndex := geometries + [face.value]];
    result.partPlanes := result.partPlanes[partIndex := planes + [contact.plane]];
  }

  method ExtractFaceContacts(contacts: Option<seq<ContactData>>) returns (r: Result<ContactZoneExtractionResult, Exception>)
    ensures contacts.None? <==> r.Err?
    ensures contacts.None? ==> r == Err(ArgumentNullException("contacts"))
    ensures r.Ok? ==> fresh(r.value) && r.value.State() == ExtractionOf(contacts.value)
  {
    if contacts.None? {
      return Err(ArgumentNullException("contacts"));
    }
    var result := new ContactZoneExtractionResult();
    var contactList := contacts.value;
    var faceContacts := FaceContacts(contactList);
    var edgeContacts := CountOfType(contactList, EdgeContact);
    var pointContacts := CountOfType(contactList, PointContact);
    var neighborPairs: set<(int, int)> := {};
    result.messages := result.messages + [ProcessingMessage(Remark,
      "Total contacts: " + IntToString(|contactList|) + " (Face: " + IntToString(|faceContacts|) + ", Edge: "
      + IntToString(edgeContacts) + ", Point: " + IntToString(pointContacts) + ")")];
    if |faceContacts| == 0 && |contactList| > 0 {
      result.messages := result.messages + [FaceContactsRequiredMessage];
      return Ok(result);
    }
    for i := 0 to |faceContacts|
      invariant Scan(result.State(), neighborPairs) == ScanAll(Scan(Start(contactList), {}), faceContacts[..i])
    {
      var contact := faceContacts[i];
      PrefixStep(faceContacts, i);
      var a := TryParsePartIndex(contact.partAId);
      var b := TryParsePartIndex(contact.partBId);
      if !a.0 || !b.0 {
        result.messages := result.messages + [ParseFailureMessage(contact)];
        continue;
      }
      var pair := if a.1 < b.1 then (a.1, b.1) else (b.1, a.1);
      neighborPairs := neighborPairs + {pair};
      AppendGeometry(result, a.1, contact);
      AppendGeometry(result, b.1, contact);
    }
    PrefixWhole(faceContacts);
    result.messages := result.messages + [PairsMessage(|neighborPairs|), ProcessedMessage(|result.partGeometries.Keys|)];
    return Ok(result);
  }

  // ---------------------------------------------------------------------
  // Properties of the pass
  // ---------------------------------------------------------------------

  /** The loop only appends messages. */
  lemma {:induction false} ScanKeepsMessages(s: Scan, cs: seq<ContactData>)
    ensures |s.st.messages| <= |ScanAll(s, cs).st.messages|
    ensures ScanAll(s, cs).st.messages[..|s.st.messages|] == s.st.messages
  {
    if cs != [] {
      ScanKeepsMessages(s, cs[..|cs| - 1]);
      var before := ScanAll(s, cs[..|cs| - 1]);
      var c := cs[|cs| - 1];
      match Parsed(c)
      case None =>
        assert ScanAll(s, cs).st.messages == before.st.messages + [ParseFailureMessage(c)];
      case Some(p) =>
        AppendedFacts(before.st, p.0, c);
        AppendedFacts(Appended(before.st, p.0, c), p.1, c);
    }
  }

  /** The first message is always the counts remark. */
  lemma FirstMessageIsCounts(cs: seq<ContactData>)
    ensures |ExtractionOf(cs).messages| >= 2
    ensures ExtractionOf(cs).messages[0] == CountsMessage(cs) && CountsMessage(cs).level == Remark
  {
    var st := Start(cs);
    var e := ExtractionOf(cs);
    if StopsEarly(cs) {
      assert e.messages == [CountsMessage(cs)] + [FaceContactsRequiredMessage];
    } else {
      var s := ScanAll(Scan(st, {}), FaceContacts(cs));
      ScanKeepsMessages(Scan(st, {}), FaceContacts(cs));
      assert s.st.messages[..1] == [CountsMessage(cs)];
      assert e.messages == s.st.messages + [PairsMessage(|s.pairs|), ProcessedMessage(|s.st.geometries.Keys|)];
      assert e.messages[0] == s.st.messages[..1][0];
    }
  }

  /** Contacts without a face contact: the counts remark, one warning, and no part entries. */
  lemma NoFaceContactsStops(cs: seq<ContactData>)
    requires cs != [] && forall i :: 0 <= i < |cs| ==> cs[i].contactType != FaceContact
    ensures ExtractionOf(cs) == Extraction(map[], map[], [CountsMessage(cs), FaceContactsRequiredMessage])
  {
    if |FaceContacts(cs)| > 0 {
      assert FaceContacts(cs)[0] in FaceContacts(cs);
    }
  }

  /** The loop keeps the geometry and plane lists of every part in step. */
  lemma {:induction false} ScanBalanced(s: Scan, cs: seq<ContactData>)
    requires Balanced(s.st)
    ensures Balanced(ScanAll(s, cs).st)
  {
    if cs != [] {
      ScanBalanced(s, cs[..|cs| - 1]);
      var before := ScanAll(s, cs[..|cs| - 1]);
      var c := cs[|cs| - 1];
      match Parsed(c)
      case None =>
      case Some(p) =>
        AppendedBalanced(before.st, p.0, c);
        AppendedBalanced(Appended(before.st, p.0, c), p.1, c);
    }
  }

  /** Every part of the result has as many planes as zones, and they are the zones' planes. */
  lemma ExtractionBalanced(cs: seq<ContactData>)
    ensures Balanced(ExtractionOf(cs))
    ensures forall k :: k in ExtractionOf(cs).geometries ==> |ExtractionOf(cs).geometries[k]| == |ExtractionOf(cs).planes[k]|
  {
    if !StopsEarly(cs) {
      ScanBalanced(Scan(Start(cs), {}), FaceContacts(cs));
    }
  }

  /** The parts with entries are exactly the parts of the face contacts whose ids parse. */
  lemma {:induction false} ScanKeys(s: Scan, cs: seq<ContactData>, k: int)
    ensures k in ScanAll(s, cs).st.geometries <==> k in s.st.geometries || Touches(cs, k)
  {
    if cs != [] {
      ScanKeys(s, cs[..|cs| - 1], k);
      TouchesSnoc(cs, k);
      var before := ScanAll(s, cs[..|cs| - 1]);
      var c := cs[|cs| - 1];
      match Parsed(c)
      case None =>
      case Some(p) =>
        AppendedFacts(before.st, p.0, c);
        AppendedFacts(Appended(before.st, p.0, c), p.1, c);
    }
  }

  lemma ExtractionKeys(cs: seq<ContactData>, k: int)
    ensures k in ExtractionOf(cs).geometries <==> !StopsEarly(cs) && Touches(FaceContacts(cs), k)
  {
    if !StopsEarly(cs) {
      ScanKeys(Scan(Start(cs), {}), FaceContacts(cs), k);
    }
  }

  /** The neighbour pairs are the distinct unordered pairs of the parsable face contacts. */
  lemma {:induction false} ScanPairs(s: Scan, cs: seq<ContactData>)
    ensures ScanAll(s, cs).pairs == s.pairs + PairsOf(cs)
  {
    if cs != [] {
      ScanPairs(s, cs[..|cs| - 1]);
    }
  }

  /** The pairs remark counts each unordered pair once, whatever the order of its ids. */
  lemma PairsRemark(cs: seq<ContactData>)
    requires !StopsEarly(cs)
    ensures var m := ExtractionOf(cs).messages;
      |m| >= 3 && m[|m| - 2] == PairsMessage(UniquePairCount(FaceContacts(cs)))
    ensures forall q :: q in PairsOf(FaceContacts(cs)) ==> q.0 <= q.1
  {
    ScanPairs(Scan(Start(cs), {}), FaceContacts(cs));
    ScanKeepsMessages(Scan(Start(cs), {}), FaceContacts(cs));
  }

  /** The last remark counts the parts with entries. */
  lemma ProcessedRemark(cs: seq<ContactData>)
    requires !StopsEarly(cs)
    ensures var e := ExtractionOf(cs);
      e.messages[|e.messages| - 1] == ProcessedMessage(|e.geometries.Keys|)
  {
  }

  /** A face contact whose ids do not parse is skipped with a warning. */
  lemma UnparsableSkipped(s: Scan, c: ContactData)
    requires Parsed(c).None?
    ensures Step(s, c).st.geometries == s.st.geometries && Step(s, c).st.planes == s.st.planes
    ensures Step(s, c).pairs == s.pairs
    ensures Step(s, c).st.messages == s.st.messages + [ParseFailureMessage(c)]
    ensures ParseFailureMessage(c).level == Warning
  {
  }

  /** Geometry that is neither a Brep nor a Mesh gives the part an entry but no zone, and a warning. */
  lemma UnknownGeometryEntryOnly(st: Extraction, partIndex: int, c: ContactData)
    requires !c.geometry.BrepGeometry? && !c.geometry.MeshGeometry?
    requires partIndex !in st.geometries && partIndex !in st.planes
    ensures var r := Appended(st, partIndex, c);
      && partIndex in r.geometries && r.geometries[partIndex] == []
      && partIndex in r.planes && r.planes[partIndex] == []
      && r.messages == st.messages + [UnknownGeometryMessage(c.geometry)]
  {
  }

  /** A new part's first zone. */
  lemma AppendedFirstZone(st: Extraction, partIndex: int, c: ContactData, f: ContactFaceGeometry)
    requires partIndex !in st.geometries && partIndex !in st.planes
    requires FaceOf(c.geometry, c.plane) == Some(f)
    ensures Appended(st, partIndex, c) == Extraction(st.geometries[partIndex := [f]], st.planes[partIndex := [c.plane]], st.messages)
  {
    assert ListAt(st.geometries, partIndex) + [f] == [f];
    assert ListAt(st.planes, partIndex) + [c.plane] == [c.plane];
  }

  /** One parsable face contact between two parts on a Brep zone: two part entries of one zone each. */
  lemma OneFaceContact(c: ContactData, a: int, b: int, brep: nat)
    requires Parsed(c) == Some((a, b)) && a != b
    requires c.contactType == FaceContact && c.geometry == BrepGeometry(brep)
    ensures var e := ExtractionOf([c]);
      var zone := ContactFaceGeometry(Some(brep), None, c.plane);
      && e.geometries == map[a := [zone], b := [zone]]
      && e.planes == map[a := [c.plane], b := [c.plane]]
      && e.messages == [CountsMessage([c]), PairsMessage(1), ProcessedMessage(2)]
  {
    var zone := ContactFaceGeometry(Some(brep), None, c.plane);
    var st0 := Start([c]);
    assert [c][..0] == [];
    assert FaceContacts([c]) == [c];
    assert !StopsEarly([c]);
    var s := ScanAll(Scan(st0, {}), [c]);
    assert ScanAll(Scan(st0, {}), [c][..0]) == Scan(st0, {});
    assert s == Step(Scan(st0, {}), c);
    StepOneFace(st0, c, a, b, brep);
    var m := map[a := [zone], b := [zone]];
    assert m.Keys == {a, b};
    assert |m.Keys| == 2;
  }

  /** The step over that contact, from an extraction with no parts. */
  lemma StepOneFace(st0: Extraction, c: ContactData, a: int, b: int, brep: nat)
    requires Parsed(c) == Some((a, b)) && a != b
    requires c.geometry == BrepGeometry(brep)
    requires st0.geometries == map[] && st0.planes == map[]
    ensures var zone := ContactFaceGeometry(Some(brep), None, c.plane);
      Step(Scan(st0, {}), c) ==
        Scan(Extraction(map[a := [zone], b := [zone]], map[a := [c.plane], b := [c.plane]], st0.messages), {Normalised((a, b))})
  {
    var zone := ContactFaceGeometry(Some(brep), None, c.plane);
    AppendedFirstZone(st0, a, c, zone);
    var st1 := Appended(st0, a, c);
    AppendedFirstZone(st1, b, c, zone);
    assert {} + {Normalised((a, b))} == {Normalised((a, b))};
  }

  /** The same for ids written in the padded form. */
  lemma SingleFaceContact(a: int, b: int, brep: nat, plane: nat, normal: nat, area: real, friction: real)
    requires IsInt32(a) && IsInt32(b) && a != b
    ensures var c := ContactData(Some(PartName(a)), Some(PartName(b)), FaceContact, BrepGeometry(brep), plane, normal, area, friction);
      var e := ExtractionOf([c]);
      var zone := ContactFaceGeometry(Some(brep), None, plane);
      && e.geometries == map[a := [zone], b := [zone]]
      && e.planes == map[a := [plane], b := [plane]]
      && e.messages == [CountsMessage([c]), PairsMessage(1), ProcessedMessage(2)]
  {
    var c := ContactData(Some(PartName(a)), Some(PartName(b)), FaceContact, BrepGeometry(brep), plane, normal, area, friction);
    PartNameParses(a);
    PartNameParses(b);
    OneFaceContact(c, a, b, brep);
  }
}
