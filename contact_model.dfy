// The read-only contact models: a list of detected contacts between parts
// named "P<index>", the relations and the symmetric neighbour map derived from
// the contacts whose part names parse, and the queries that find contacts by
// part index.
module ContactModels {
  import opened Common

  datatype ContactType = UnknownContact | PointContact | EdgeContact | FaceContact

  /** What a contact zone's geometry is at run time. */
  datatype GeometryKind = BrepGeometry(brep: nat) | MeshGeometry(mesh: nat) | OtherGeometry(typeName: string) | NullGeometry

  /**
   * A contact: the two part names, the contact type, the zone's geometry, the
   * contact plane and normal (opaque handles), the zone area and the friction.
   * The placeholder ContactData of the Core model only reads the names, the
   * normal, the area and the friction.
   */
  datatype ContactData = ContactData(
    partAId: Option<string>, partBId: Option<string>, contactType: ContactType, geometry: GeometryKind,
    plane: nat, normal: nat, area: real, friction: real)

  // ---------------------------------------------------------------------
  // Part names
  // ---------------------------------------------------------------------

  /** TryParsePartIndex: "P" followed by an Int32; on failure the index is -1. */
  function TryParsePartIndex(partId: Option<string>): (r: (bool, int))
    ensures r.0 <==> partId.Some? && |partId.value| > 0 && partId.value[0] == 'P' && ParseInt32(partId.value[1..]).Some?
    ensures r.0 ==> r.1 == ParseInt32(partId.value[1..]).value
    ensures !r.0 ==> r.1 == -1
  {
    if partId.Some? && |partId.value| > 0 && StartsWith(partId.value, "P") && ParseInt32(partId.value[1..]).Some? then
      (true, ParseInt32(partId.value[1..]).value)
    else (false, -1)
  }

  /** The name GetContactsForPart looks for: $"P{index:D4}". */
  function PartName(index: int): string
  {
    "P" + FormatD4(index)
  }

  lemma {:induction false} LeadingZero(s: string)
    requires AllDigits(s)
    ensures AllDigits("0" + s) && DigitsValue("0" + s) == DigitsValue(s)
    decreases |s|
  {
    if s != [] {
      var t := "0" + s;
      assert t[..|t| - 1] == "0" + s[..|s| - 1];
      LeadingZero(s[..|s| - 1]);
    }
  }

  lemma {:induction false} LeadingZeros(k: nat, s: string)
    requires AllDigits(s)
    ensures AllDigits(Zeros(k) + s) && DigitsValue(Zeros(k) + s) == DigitsValue(s)
    decreases k
  {
    if k > 0 {
      var t := Zeros(k - 1) + s;
      LeadingZeros(k - 1, s);
      LeadingZero(t);
      assert Zeros(k) == "0" + Zeros(k - 1);
      AppendAssoc("0", Zeros(k - 1), s);
    } else {
      assert Zeros(k) + s == s;
    }
  }

  /** The digits of FormatD4 before the sign: at least four, and they still read as the magnitude. */
  lemma PaddedDigits(m: nat)
    ensures var digits := NatToString(m);
      var padded := if |digits| < 4 then Zeros(4 - |digits|) + digits else digits;
      |padded| > 0 && AllDigits(padded) && DigitsValue(padded) == m
  {
    var digits := NatToString(m);
    DigitsOfNat(m);
    if |digits| < 4 {
      LeadingZeros(4 - |digits|, digits);
    }
  }

  /** Int32.Parse reads back what ToString("D4") writes. */
  lemma FormatD4Parses(n: int)
    requires IsInt32(n)
    ensures ParseInt32(FormatD4(n)) == Some(n)
  {
    var m: nat := if n < 0 then -n else n;
    var digits := NatToString(m);
    var padded := if |digits| < 4 then Zeros(4 - |digits|) + digits else digits;
    PaddedDigits(m);
    SignedDigitsParse(padded, n);
  }

  /** Reading back a formatted name gives the index: the D4 padding only adds leading zeros. */
  lemma PartNameParses(index: int)
    requires IsInt32(index)
    ensures TryParsePartIndex(Some(PartName(index))) == (true, index)
  {
    FormatD4Parses(index);
    assert PartName(index)[1..] == FormatD4(index);
    assert StartsWith(PartName(index), "P");
  }

  /** Distinct part indices have distinct padded names. */
  lemma PartNameInjective(a: int, b: int)
    requires IsInt32(a) && IsInt32(b) && PartName(a) == PartName(b)
    ensures a == b
  {
    PartNameParses(a);
    PartNameParses(b);
  }

  /** A short name parses to the same index as its padded form but differs from it: "P3" against "P0003". */
  lemma ShortNameNotFormatted()
    ensures TryParsePartIndex(Some("P3")) == (true, 3)
    ensures PartName(3) == "P0003" && PartName(3) != "P3"
  {
    assert ParseInt32("3") == Some(3) by {
      assert TrimEndBy(TrimStartBy("3", NumberSpace), NumberSpace) == "3";
    }
    assert "P3"[1..] == "3";
    assert NatToString(3) == "3";
    assert Zeros(3) == "000";
  }

  /** Both part names parse: the pair of indices. */
  function Parsed(c: ContactData): (r: Option<(int, int)>)
    ensures r.Some? <==> TryParsePartIndex(c.partAId).0 && TryParsePartIndex(c.partBId).0
    ensures r.Some? ==> r.value == (TryParsePartIndex(c.partAId).1, TryParsePartIndex(c.partBId).1)
  {
    var a := TryParsePartIndex(c.partAId);
    if !a.0 then None
    else
      var b := TryParsePartIndex(c.partBId);
      if !b.0 then None else Some((a.1, b.1))
  }

  // ---------------------------------------------------------------------
  // Neighbour map
  // ---------------------------------------------------------------------

  /** One contact entered into the map: both keys exist, each end lists the other. */
  function Link(nm: map<int, set<int>>, a: int, b: int): (r: map<int, set<int>>)
    ensures r.Keys == nm.Keys + {a, b}
    ensures forall u :: u in r ==> r[u] == (if u in nm then nm[u] else {}) + (if u == a then {b} else {}) + (if u == b then {a} else {})
  {
    var m1 := if a in nm then nm else nm[a := {}];
    var m2 := if b in m1 then m1 else m1[b := {}];
    var m3 := m2[a := m2[a] + {b}];
    m3[b := m3[b] + {a}]
  }

  /** The map the constructor builds from the contacts, in order. */
  function NeighbourMapOf(cs: seq<ContactData>): map<int, set<int>>
  {
    if cs == [] then map[]
    else
      var nm := NeighbourMapOf(cs[..|cs| - 1]);
      match Parsed(cs[|cs| - 1])
      case None => nm
      case Some(p) => Link(nm, p.0, p.1)
  }

  /** The contact's part names parse and one of them is the part. */
  predicate Names(c: ContactData, u: int)
  {
    Parsed(c).Some? && (Parsed(c).value.0 == u || Parsed(c).value.1 == u)
  }

  /** The contact's part names parse to the two parts, in either order. */
  predicate Connects(c: ContactData, u: int, v: int)
  {
    Parsed(c) == Some((u, v)) || Parsed(c) == Some((v, u))
  }

  /** Some parsable contact names the part. */
  ghost predicate Touches(cs: seq<ContactData>, u: int)
  {
    ExistsIn(cs, (c: ContactData) => Names(c, u))
  }

  /** Some parsable contact joins the two parts, in either order. */
  ghost predicate Joins(cs: seq<ContactData>, u: int, v: int)
  {
    ExistsIn(cs, (c: ContactData) => Connects(c, u, v))
  }

  lemma TouchesSnoc(cs: seq<ContactData>, u: int)
    requires cs != []
    ensures Touches(cs, u) <==> Touches(cs[..|cs| - 1], u) || Names(cs[|cs| - 1], u)
  {
    ExistsInSnoc(cs, (c: ContactData) => Names(c, u));
  }

  lemma JoinsSnoc(cs: seq<ContactData>, u: int, v: int)
    requires cs != []
    ensures Joins(cs, u, v) <==> Joins(cs[..|cs| - 1], u, v) || Connects(cs[|cs| - 1], u, v)
  {
    ExistsInSnoc(cs, (c: ContactData) => Connects(c, u, v));
  }

  lemma JoinsTouches(cs: seq<ContactData>, u: int, v: int)
    requires Joins(cs, u, v)
    ensures Touches(cs, u) && Touches(cs, v) && Joins(cs, v, u)
  {
    var i :| 0 <= i < |cs| && Connects(cs[i], u, v);
    assert Names(cs[i], u) && Names(cs[i], v) && Connects(cs[i], v, u);
  }

  /** The keys are exactly the parts named by the parsable contacts. */
  lemma {:induction false} NeighbourMapKeys(cs: seq<ContactData>, u: int)
    ensures u in NeighbourMapOf(cs) <==> Touches(cs, u)
  {
    if cs != [] {
      NeighbourMapKeys(cs[..|cs| - 1], u);
      TouchesSnoc(cs, u);
    }
  }

  /** Part v is listed under part u exactly when some parsable contact joins them. */
  lemma {:induction false} NeighbourMapEntries(cs: seq<ContactData>, u: int, v: int)
    requires u in NeighbourMapOf(cs)
    ensures v in NeighbourMapOf(cs)[u] <==> Joins(cs, u, v)
  {
    var init := cs[..|cs| - 1];
    JoinsSnoc(cs, u, v);
    if u in NeighbourMapOf(init) {
      NeighbourMapEntries(init, u, v);
    } else {
      NeighbourMapKeys(init, u);
      if Joins(init, u, v) {
        JoinsTouches(init, u, v);
      }
    }
  }

  /** The neighbour map is symmetric: b lists a iff a lists b. */
  lemma NeighbourMapSymmetric(cs: seq<ContactData>, u: int, v: int)
    requires u in NeighbourMapOf(cs) && v in NeighbourMapOf(cs)[u]
    ensures v in NeighbourMapOf(cs) && u in NeighbourMapOf(cs)[v]
  {
    NeighbourMapEntries(cs, u, v);
    JoinsTouches(cs, u, v);
    NeighbourMapKeys(cs, v);
    NeighbourMapEntries(cs, v, u);
  }

  /** The constructor's loop, one contact at a time. */
  method BuildNeighbourMap(contacts: seq<ContactData>) returns (nm: map<int, set<int>>)
    ensures nm == NeighbourMapOf(contacts)
  {
    nm := map[];
    for k := 0 to |contacts|
      invariant nm == NeighbourMapOf(contacts[..k])
    {
      var contact := contacts[k];
      assert contacts[..k + 1][..k] == contacts[..k];
      var a := TryParsePartIndex(contact.partAId);
      if !a.0 {
        continue;
      }
      var b := TryParsePartIndex(contact.partBId);
      if !b.0 {
        continue;
      }
      if a.1 !in nm { nm := nm[a.1 := {}]; }
      if b.1 !in nm { nm := nm[b.1 := {}]; }
      nm := nm[a.1 := nm[a.1] + {b.1}];
      nm := nm[b.1 := nm[b.1] + {a.1}];
    }
    assert contacts[..|contacts|] == contacts;
  }

  // ---------------------------------------------------------------------
  // Queries
  // ---------------------------------------------------------------------

  function ContactsForPart(cs: seq<ContactData>, partIndex: int): (r: seq<ContactData>)
    ensures |r| <= |cs|
    ensures forall c :: c in r <==> c in cs && (c.partAId == Some(PartName(partIndex)) || c.partBId == Some(PartName(partIndex)))
  {
    if cs == [] then []
    else
      var rest := ContactsForPart(cs[1..], partIndex);
      assert forall c :: c in cs <==> c == cs[0] || c in cs[1..];
      if cs[0].partAId == Some(PartName(partIndex)) || cs[0].partBId == Some(PartName(partIndex)) then [cs[0]] + rest else rest
  }

  /** The condition GetContactsForPart filters by: either end is the part's formatted name. */
  function MentionsPart(partIndex: int): ContactData -> bool
  {
    (c: ContactData) => c.partAId == Some(PartName(partIndex)) || c.partBId == Some(PartName(partIndex))
  }

  /** GetContactsForPart is Contacts.Where: the contacts naming the part, in list order, repeats kept. */
  lemma {:induction false} ContactsForPartInOrder(cs: seq<ContactData>, partIndex: int)
    ensures ContactsForPart(cs, partIndex) == Where(cs, MentionsPart(partIndex))
    ensures var pos := Positions(cs, MentionsPart(partIndex));
      |ContactsForPart(cs, partIndex)| == |pos| &&
      forall k :: 0 <= k < |pos| ==> ContactsForPart(cs, partIndex)[k] == cs[pos[k]]
  {
    if cs != [] {
      ContactsForPartInOrder(cs[1..], partIndex);
    }
    WhereAtPositions(cs, MentionsPart(partIndex));
  }

  predicate Between(c: ContactData, aName: string, bName: string)
  {
    (c.partAId == Some(aName) && c.partBId == Some(bName)) || (c.partAId == Some(bName) && c.partBId == Some(aName))
  }

  function ContactsBetween(cs: seq<ContactData>, partAIndex: int, partBIndex: int): (r: seq<ContactData>)
    ensures |r| <= |cs|
    ensures forall c :: c in r <==> c in cs && Between(c, PartName(partAIndex), PartName(partBIndex))
  {
    if cs == [] then []
    else
      var rest := ContactsBetween(cs[1..], partAIndex, partBIndex);
      assert forall c :: c in cs <==> c == cs[0] || c in cs[1..];
      if Between(cs[0], PartName(partAIndex), PartName(partBIndex)) then [cs[0]] + rest else rest
  }

  /** The condition GetContactsBetweenParts filters by. */
  function JoinsParts(partAIndex: int, partBIndex: int): ContactData -> bool
  {
    (c: ContactData) => Between(c, PartName(partAIndex), PartName(partBIndex))
  }

  /** GetContactsBetweenParts is Contacts.Where: the contacts joining the two parts, in list order, repeats kept. */
  lemma {:induction false} ContactsBetweenInOrder(cs: seq<ContactData>, partAIndex: int, partBIndex: int)
    ensures ContactsBetween(cs, partAIndex, partBIndex) == Where(cs, JoinsParts(partAIndex, partBIndex))
    ensures var pos := Positions(cs, JoinsParts(partAIndex, partBIndex));
      |ContactsBetween(cs, partAIndex, partBIndex)| == |pos| &&
      forall k :: 0 <= k < |pos| ==> ContactsBetween(cs, partAIndex, partBIndex)[k] == cs[pos[k]]
  {
    if cs != [] {
      ContactsBetweenInOrder(cs[1..], partAIndex, partBIndex);
    }
    WhereAtPositions(cs, JoinsParts(partAIndex, partBIndex));
  }

  /** GetContactsBetweenParts does not depend on the order of its arguments. */
  lemma {:induction false} ContactsBetweenSymmetric(cs: seq<ContactData>, a: int, b: int)
    ensures ContactsBetween(cs, a, b) == ContactsBetween(cs, b, a)
  {
    if cs != [] {
      ContactsBetweenSymmetric(cs[1..], a, b);
    }
  }

  /** A contact between two parts is a contact of each of them. */
  lemma ContactsBetweenInForPart(cs: seq<ContactData>, a: int, b: int)
    ensures forall c :: c in ContactsBetween(cs, a, b) ==> c in ContactsForPart(cs, a) && c in ContactsForPart(cs, b)
  {
  }

  /** A contact named "P3" enters the neighbour map under 3, yet GetContactsForPart(3) does not return it. */
  lemma ForPartMissesShortNames()
    ensures var c := ContactData(Some("P3"), Some("P3"), FaceContact, NullGeometry, 0, 0, 0.0, 0.0);
      && 3 in NeighbourMapOf([c])
      && ContactsForPart([c], 3) == []
  {
    var c := ContactData(Some("P3"), Some("P3"), FaceContact, NullGeometry, 0, 0, 0.0, 0.0);
    ShortNameNotFormatted();
    assert [c][..0] == [];
    assert Parsed(c) == Some((3, 3));
    assert ContactsForPart([c][1..], 3) == [];
  }

  /** The query by parsed index: the contacts with a parsable end equal to the index. */
  function ContactsForIndex(cs: seq<ContactData>, partIndex: int): (r: seq<ContactData>)
    ensures |r| <= |cs|
    ensures forall c :: c in r <==> c in cs && Names(c, partIndex)
  {
    if cs == [] then []
    else
      var rest := ContactsForIndex(cs[1..], partIndex);
      assert forall c :: c in cs <==> c == cs[0] || c in cs[1..];
      if Names(cs[0], partIndex) then [cs[0]] + rest
      else rest
  }

  /** The index query agrees with the neighbour map: a key of the map always has contacts. */
  lemma ContactsForIndexMatchesMap(cs: seq<ContactData>, u: int)
    ensures u in NeighbourMapOf(cs) <==> ContactsForIndex(cs, u) != []
  {
    NeighbourMapKeys(cs, u);
    if u in NeighbourMapOf(cs) {
      var i :| 0 <= i < |cs| && Names(cs[i], u);
      assert cs[i] in ContactsForIndex(cs, u);
    }
    if ContactsForIndex(cs, u) != [] {
      var c := ContactsForIndex(cs, u)[0];
      assert c in ContactsForIndex(cs, u);
      var i :| 0 <= i < |cs| && cs[i] == c;
      assert Names(cs[i], u);
    }
  }

  /** Both names of the contact are in the padded form of their parsed indices. */
  predicate PaddedNames(c: ContactData)
  {
    Parsed(c).Some? && c.partAId == Some(PartName(Parsed(c).value.0)) && c.partBId == Some(PartName(Parsed(c).value.1))
  }

  /** On names written in the padded form the two queries agree. */
  lemma {:induction false} ContactsForIndexOnPaddedNames(cs: seq<ContactData>, partIndex: int)
    requires IsInt32(partIndex)
    requires forall i :: 0 <= i < |cs| ==> PaddedNames(cs[i])
    ensures ContactsForIndex(cs, partIndex) == ContactsForPart(cs, partIndex)
  {
    if cs != [] {
      var p := Parsed(cs[0]).value;
      assert PaddedNames(cs[0]);
      if PartName(p.0) == PartName(partIndex) {
        PartNameInjective(p.0, partIndex);
      }
      if PartName(p.1) == PartName(partIndex) {
        PartNameInjective(p.1, partIndex);
      }
      assert forall i :: 0 <= i < |cs[1..]| ==> cs[1..][i] == cs[i + 1];
      ContactsForIndexOnPaddedNames(cs[1..], partIndex);
    }
  }

  // ---------------------------------------------------------------------
  // The two models
  // ---------------------------------------------------------------------

  /** AssemblyChain.Core.Model.ContactModel: the contacts, their hash and the neighbour map. */
  datatype CoreContactModel = CoreContactModel(contacts: seq<ContactData>, neighbourMap: map<int, set<int>>, hash: string)
  {
    function ContactCount(): int { |contacts| }

    /** UniquePairs as written: the number of keys of the neighbour map. */
    function UniquePairs(): int { |neighbourMap.Keys| }
  }

  /** The Core model's constructor. */
  method NewCoreContactModel(contacts: Option<seq<ContactData>>, hash: Option<string>) returns (r: Result<CoreContactModel, Exception>)
    ensures contacts.None? ==> r == Err(ArgumentNullException("contacts"))
    ensures contacts.Some? && hash.None? ==> r == Err(ArgumentNullException("hash"))
    ensures r.Ok? <==> contacts.Some? && hash.Some?
    ensures r.Ok? ==> r.value == CoreContactModel(contacts.value, NeighbourMapOf(contacts.value), hash.value)
  {
    if contacts.None? {
      return Err(ArgumentNullException("contacts"));
    }
    if hash.None? {
      return Err(ArgumentNullException("hash"));
    }
    var nm := BuildNeighbourMap(contacts.value);
    return Ok(CoreContactModel(contacts.value, nm, hash.value));
  }

  /** UniquePairs counts parts: one contact between two parts gives 2, not 1. */
  lemma UniquePairsCountsParts()
    ensures var c := ContactData(Some("P3"), Some("P4"), FaceContact, NullGeometry, 0, 0, 0.0, 0.0);
      var m := CoreContactModel([c], NeighbourMapOf([c]), "");
      m.UniquePairs() == 2 && UniquePairCount([c]) == 1
  {
    var c := ContactData(Some("P3"), Some("P4"), FaceContact, NullGeometry, 0, 0, 0.0, 0.0);
    assert ParseInt32("3") == Some(3) by {
      assert TrimEndBy(TrimStartBy("3", NumberSpace), NumberSpace) == "3";
    }
    assert ParseInt32("4") == Some(4) by {
      assert TrimEndBy(TrimStartBy("4", NumberSpace), NumberSpace) == "4";
    }
    assert "P3"[1..] == "3" && "P4"[1..] == "4";
    assert [c][..0] == [];
    assert Parsed(c) == Some((3, 4));
    assert NeighbourMapOf([c]).Keys == {3, 4};
    assert PairsOf([c]) == {(3, 4)};
  }

  /** The unordered pair of a parsed contact, smaller index first. */
  function Normalised(p: (int, int)): (int, int)
  {
    if p.0 < p.1 then p else (p.1, p.0)
  }

  /** The distinct unordered pairs the parsable contacts join. */
  function PairsOf(cs: seq<ContactData>): (r: set<(int, int)>)
    ensures forall q :: q in r ==> q.0 <= q.1
  {
    if cs == [] then {}
    else
      var rest := PairsOf(cs[..|cs| - 1]);
      match Parsed(cs[|cs| - 1])
      case None => rest
      case Some(p) => rest + {Normalised(p)}
  }

  /** UniquePairs as its name promises: the number of distinct unordered pairs in contact. */
  function UniquePairCount(cs: seq<ContactData>): nat
  {
    |PairsOf(cs)|
  }

  /** Each counted pair is joined by some contact, and each joined pair is counted once. */
  lemma {:induction false} PairsOfIff(cs: seq<ContactData>, u: int, v: int)
    requires u <= v
    ensures (u, v) in PairsOf(cs) <==> Joins(cs, u, v)
  {
    if cs != [] {
      var init := cs[..|cs| - 1];
      var last := cs[|cs| - 1];
      PairsOfIff(init, u, v);
      JoinsSnoc(cs, u, v);
      NormalisedConnects(last, u, v);
      if Parsed(last).Some? {
        assert PairsOf(cs) == PairsOf(init) + {Normalised(Parsed(last).value)};
      } else {
        assert PairsOf(cs) == PairsOf(init);
      }
    }
  }

  lemma NormalisedConnects(c: ContactData, u: int, v: int)
    requires u <= v
    ensures (Parsed(c).Some? && Normalised(Parsed(c).value) == (u, v)) <==> Connects(c, u, v)
  {
  }

  /** A relation of the Contact model: the parsed indices with the normal, area and friction. */
  datatype ContactRelation = ContactRelation(partAIndex: int, partBIndex: int, normal: nat, area: real, friction: real)

  /** The relations: one per parsable contact, in input order. */
  function RelationsOf(cs: seq<ContactData>): (r: seq<ContactRelation>)
    ensures |r| <= |cs|
  {
    if cs == [] then []
    else
      var rest := RelationsOf(cs[..|cs| - 1]);
      var c := cs[|cs| - 1];
      match Parsed(c)
      case None => rest
      case Some(p) => rest + [ContactRelation(p.0, p.1, c.normal, c.area, c.friction)]
  }

  /** Every relation comes from a parsable contact, and the relations keep the parsed part indices. */
  lemma {:induction false} RelationsFromContacts(cs: seq<ContactData>, k: nat)
    requires k < |RelationsOf(cs)|
    ensures exists i :: 0 <= i < |cs| && Parsed(cs[i]) == Some((RelationsOf(cs)[k].partAIndex, RelationsOf(cs)[k].partBIndex))
  {
    var init := cs[..|cs| - 1];
    assert forall i :: 0 <= i < |init| ==> init[i] == cs[i];
    if k < |RelationsOf(init)| {
      RelationsFromContacts(init, k);
      var i :| 0 <= i < |init| && Parsed(init[i]) == Some((RelationsOf(init)[k].partAIndex, RelationsOf(init)[k].partBIndex));
      assert cs[i] == init[i];
    } else {
      assert Parsed(cs[|cs| - 1]).Some?;
    }
  }

  /** Relations keep the input order: the relations of a concatenation are concatenated. */
  lemma {:induction false} RelationsConcat(a: seq<ContactData>, b: seq<ContactData>)
    ensures RelationsOf(a + b) == RelationsOf(a) + RelationsOf(b)
  {
    if b == [] {
      assert a + b == a;
    } else {
      assert (a + b)[..|a + b| - 1] == a + b[..|b| - 1];
      RelationsConcat(a, b[..|b| - 1]);
    }
  }

  predicate RelationNames(r: ContactRelation, u: int)
  {
    r.partAIndex == u || r.partBIndex == u
  }

  /** The neighbour map's keys are exactly the parts that appear in the relations. */
  lemma {:induction false} RelationsKeys(cs: seq<ContactData>, u: int)
    ensures u in NeighbourMapOf(cs) <==> ExistsIn(RelationsOf(cs), (r: ContactRelation) => RelationNames(r, u))
  {
    if cs != [] {
      var init := cs[..|cs| - 1];
      var c := cs[|cs| - 1];
      RelationsKeys(init, u);
      var rs := RelationsOf(cs);
      if Parsed(c).Some? {
        assert rs[..|rs| - 1] == RelationsOf(init);
        ExistsInSnoc(rs, (r: ContactRelation) => RelationNames(r, u));
      }
    }
  }

  /** The number of relations is the number of parsable contacts. */
  function ParsableCount(cs: seq<ContactData>): nat
  {
    if cs == [] then 0 else ParsableCount(cs[..|cs| - 1]) + (if Parsed(cs[|cs| - 1]).Some? then 1 else 0)
  }

  lemma {:induction false} RelationsCount(cs: seq<ContactData>)
    ensures |RelationsOf(cs)| == ParsableCount(cs) <= |cs|
  {
    if cs != [] {
      RelationsCount(cs[..|cs| - 1]);
    }
  }

  /** AssemblyChain.Core.Contact.ContactModel: the contacts, relations, neighbour map and hash. */
  datatype ContactModel = ContactModel(
    contacts: seq<ContactData>, relations: seq<ContactRelation>, neighbourMap: map<int, set<int>>, hash: string)
  {
    function ContactCount(): int { |contacts| }
    function UniquePairs(): int { |neighbourMap.Keys| }
  }

  /** The Contact model's constructor: one loop fills the relations and the neighbour map. */
  method NewContactModel(contacts: Option<seq<ContactData>>, hash: Option<string>) returns (r: Result<ContactModel, Exception>)
    ensures contacts.None? ==> r == Err(ArgumentNullException("contacts"))
    ensures contacts.Some? && hash.None? ==> r == Err(ArgumentNullException("hash"))
    ensures r.Ok? <==> contacts.Some? && hash.Some?
    ensures r.Ok? ==> r.value == ContactModel(contacts.value, RelationsOf(contacts.value), NeighbourMapOf(contacts.value), hash.value)
  {
    if contacts.None? {
      return Err(ArgumentNullException("contacts"));
    }
    if hash.None? {
      return Err(ArgumentNullException("hash"));
    }
    var cs := contacts.value;
    var relations := [];
    var nm := map[];
    for k := 0 to |cs|
      invariant relations == RelationsOf(cs[..k]) && nm == NeighbourMapOf(cs[..k])
    {
      var contact := cs[k];
      assert cs[..k + 1][..k] == cs[..k];
      var a := TryParsePartIndex(contact.partAId);
      if !a.0 {
        continue;
      }
      var b := TryParsePartIndex(contact.partBId);
      if !b.0 {
        continue;
      }
      relations := relations + [ContactRelation(a.1, b.1, contact.normal, contact.area, contact.friction)];
      if a.1 !in nm { nm := nm[a.1 := {}]; }
      if b.1 !in nm { nm := nm[b.1 := {}]; }
      nm := nm[a.1 := nm[a.1] + {b.1}];
      nm := nm[b.1 := nm[b.1] + {a.1}];
    }
    assert cs[..|cs|] == cs;
    return Ok(ContactModel(cs, relations, nm, hash.value));
  }
}
