// Mesh faces, face signatures and duplicate-face removal, shared by the
// mesh repair and mesh validation passes.

module Meshes {
  import opened Common
  import opened IntSets

  /** A Rhino mesh face: four vertex indices; a triangle repeats its third index (C == D). */
  datatype MeshFace = MeshFace(a: int, b: int, c: int, d: int)
  {
    predicate IsQuad() { c != d }
  }

  /** Faces.AddFace(a, b, c). */
  function Triangle(a: int, b: int, c: int): MeshFace { MeshFace(a, b, c, c) }

  /** The vertex indices a face uses: four for a quad, three for a triangle. */
  function Indices(f: MeshFace): (r: seq<int>)
    ensures |r| == if f.IsQuad() then 4 else 3
    ensures r[..3] == [f.a, f.b, f.c]
  {
    if f.IsQuad() then [f.a, f.b, f.c, f.d] else [f.a, f.b, f.c]
  }

  /** GetFaceSignature: the face's indices sorted ascending, joined by ",". */
  function Signature(f: MeshFace): string
  {
    Join(MapSeq(SortInts(Indices(f)), IntToString), ",")
  }

  /** The validator's signature: A, B, C and (for a quad) D in face order, each followed by ",", the last without. */
  function OrderedSignature(f: MeshFace): string
  {
    IntToString(f.a) + "," + IntToString(f.b) + "," + IntToString(f.c) + "," + (if f.IsQuad() then IntToString(f.d) else "")
  }

  // ---------------------------------------------------------------------
  // Injectivity of the signatures
  // ---------------------------------------------------------------------

  lemma NatToStringInjective(m: nat, n: nat)
    requires NatToString(m) == NatToString(n)
    ensures m == n
  {
    DigitsOfNat(m);
    DigitsOfNat(n);
  }

  /** Decimal text determines the integer it was written from. */
  lemma IntToStringInjective(m: int, n: int)
    requires IntToString(m) == IntToString(n)
    ensures m == n
  {
    var s := IntToString(m);
    if m < 0 {
      assert s[0] == '-';
      if n >= 0 {
        assert false;
      }
      assert NatToString(-m) == s[1..] == NatToString(-n);
      NatToStringInjective(-m, -n);
    } else {
      assert IsDigit(s[0]);
      NatToStringInjective(m, n);
    }
  }

  lemma IntToStringNoComma(n: int)
    ensures Free(IntToString(n), ',')
  {
    var s := IntToString(n);
    forall j | 0 <= j < |s| ensures s[j] != ',' {
      if n < 0 {
        if j > 0 { assert s[j] == NatToString(-n)[j - 1]; }
      }
    }
  }

  /** Joining decimal numbers with "," loses nothing: equal texts come from equal lists. */
  lemma {:induction false} JoinNumbersInjective(xs: seq<int>, ys: seq<int>)
    requires |xs| >= 1 && |ys| >= 1
    requires Join(MapSeq(xs, IntToString), ",") == Join(MapSeq(ys, IntToString), ",")
    ensures xs == ys
  {
    var sx, sy := MapSeq(xs, IntToString), MapSeq(ys, IntToString);
    forall k | 0 <= k < |sx| ensures Free(sx[k], ',') { IntToStringNoComma(xs[k]); }
    forall k | 0 <= k < |sy| ensures Free(sy[k], ',') { IntToStringNoComma(ys[k]); }
    SplitJoin(sx, ',');
    SplitJoin(sy, ',');
    assert sx == sy;
    forall k | 0 <= k < |xs| ensures xs[k] == ys[k] {
      assert IntToString(xs[k]) == sx[k] == sy[k] == IntToString(ys[k]);
      IntToStringInjective(xs[k], ys[k]);
    }
  }

  /** Two faces share a sorted signature exactly when they use the same multiset of vertex indices. */
  lemma SignatureIff(f: MeshFace, g: MeshFace)
    ensures Signature(f) == Signature(g) <==> multiset(Indices(f)) == multiset(Indices(g))
  {
    SortIntsFacts(Indices(f));
    SortIntsFacts(Indices(g));
    if multiset(Indices(f)) == multiset(Indices(g)) {
      AscendingUnique(SortInts(Indices(f)), SortInts(Indices(g)));
    }
    if Signature(f) == Signature(g) {
      assert |SortInts(Indices(f))| == |multiset(Indices(f))| >= 1;
      assert |SortInts(Indices(g))| == |multiset(Indices(g))| >= 1;
      JoinNumbersInjective(SortInts(Indices(f)), SortInts(Indices(g)));
    }
  }

  /** Hence a face and any reordering of its indices share a signature, and a triangle never shares one with a quad. */
  lemma SignatureSeparatesShapes(f: MeshFace, g: MeshFace)
    requires f.IsQuad() != g.IsQuad()
    ensures Signature(f) != Signature(g)
  {
    SignatureIff(f, g);
    assert |multiset(Indices(f))| != |multiset(Indices(g))|;
  }

  /** The ordered signature tells faces apart unless they list the same indices in the same order. */
  lemma OrderedSignatureIff(f: MeshFace, g: MeshFace)
    ensures OrderedSignature(f) == OrderedSignature(g) <==> Indices(f) == Indices(g)
  {
    var lastF := if f.IsQuad() then IntToString(f.d) else "";
    var lastG := if g.IsQuad() then IntToString(g.d) else "";
    var xf := [IntToString(f.a), IntToString(f.b), IntToString(f.c), lastF];
    var xg := [IntToString(g.a), IntToString(g.b), IntToString(g.c), lastG];
    if OrderedSignature(f) == OrderedSignature(g) {
      JoinFour(xf);
      JoinFour(xg);
      forall k | 0 <= k < 3 ensures Free(xf[k], ',') && Free(xg[k], ',') {
        IntToStringNoComma([f.a, f.b, f.c][k]);
        IntToStringNoComma([g.a, g.b, g.c][k]);
      }
      if f.IsQuad() { IntToStringNoComma(f.d); }
      if g.IsQuad() { IntToStringNoComma(g.d); }
      SplitJoin(xf, ',');
      SplitJoin(xg, ',');
      assert xf == xg;
      IntToStringInjective(f.a, g.a);
      IntToStringInjective(f.b, g.b);
      IntToStringInjective(f.c, g.c);
      assert f.IsQuad() == g.IsQuad() by {
        assert |lastF| == |lastG|;
      }
      if f.IsQuad() { IntToStringInjective(f.d, g.d); }
    }
  }

  lemma JoinFour(xs: seq<string>)
    requires |xs| == 4
    ensures Join(xs, ",") == xs[0] + "," + xs[1] + "," + xs[2] + "," + xs[3]
  {
    var t2 := xs[1..][1..];
    assert t2[1..] == [xs[3]];
    assert Join(t2, ",") == xs[2] + "," + xs[3];
    assert xs[1..][1..] == t2;
  }

  /** Reordering a triangle's indices keeps its sorted signature but changes its ordered one. */
  lemma ReorderedTriangle()
    ensures Signature(Triangle(1, 2, 3)) == Signature(Triangle(2, 1, 3))
    ensures OrderedSignature(Triangle(1, 2, 3)) != OrderedSignature(Triangle(2, 1, 3))
  {
    var f, g := Triangle(1, 2, 3), Triangle(2, 1, 3);
    assert Indices(f) == [1, 2, 3] && Indices(g) == [2, 1, 3];
    assert multiset(Indices(f)) == multiset(Indices(g));
    SignatureIff(f, g);
    OrderedSignatureIff(f, g);
  }

  // ---------------------------------------------------------------------
  // Duplicates by signature
  // ---------------------------------------------------------------------

  /** The signatures seen among the faces. */
  function SigSet(faces: seq<MeshFace>, sig: MeshFace -> string): set<string>
  {
    if faces == [] then {} else SigSet(faces[..|faces| - 1], sig) + {sig(faces[|faces| - 1])}
  }

  /** The indices of faces whose signature an earlier face already has, ascending. */
  function LaterDuplicates(faces: seq<MeshFace>, sig: MeshFace -> string): (r: seq<int>)
    ensures StrictlyIncreasing(r)
    ensures forall k :: 0 <= k < |r| ==> 0 <= r[k] < |faces|
  {
    if faces == [] then []
    else
      var init := faces[..|faces| - 1];
      LaterDuplicates(init, sig) + (if sig(faces[|faces| - 1]) in SigSet(init, sig) then [|init|] else [])
  }

  /** The faces that stay: the first face of each signature, in order. */
  function FirstOfEach(faces: seq<MeshFace>, sig: MeshFace -> string): (r: seq<MeshFace>)
  {
    if faces == [] then []
    else
      var init := faces[..|faces| - 1];
      FirstOfEach(init, sig) + (if sig(faces[|faces| - 1]) in SigSet(init, sig) then [] else [faces[|faces| - 1]])
  }

  /** The faces whose positions are not in drop, in order. */
  function Keep(faces: seq<MeshFace>, drop: set<int>): (r: seq<MeshFace>)
    ensures |r| <= |faces|
  {
    if faces == [] then []
    else Keep(faces[..|faces| - 1], drop) + (if |faces| - 1 in drop then [] else [faces[|faces| - 1]])
  }

  lemma {:induction false} SigSetIff(faces: seq<MeshFace>, sig: MeshFace -> string, s: string)
    ensures s in SigSet(faces, sig) <==> exists i :: 0 <= i < |faces| && sig(faces[i]) == s
  {
    if faces != [] {
      var init := faces[..|faces| - 1];
      SigSetIff(init, sig, s);
      if s in SigSet(init, sig) {
        var i :| 0 <= i < |init| && sig(init[i]) == s;
        assert faces[i] == init[i];
      }
      forall i | 0 <= i < |init| ensures faces[i] == init[i] { }
    }
  }

  /** A face is a later duplicate exactly when some earlier face has its signature. */
  lemma {:induction false} LaterDuplicatesIff(faces: seq<MeshFace>, sig: MeshFace -> string, i: int)
    ensures i in LaterDuplicates(faces, sig) <==>
      0 <= i < |faces| && exists j :: 0 <= j < i && sig(faces[j]) == sig(faces[i])
  {
    if faces != [] {
      var init, n := faces[..|faces| - 1], |faces| - 1;
      LaterDuplicatesIff(init, sig, i);
      SigSetIff(init, sig, sig(faces[n]));
      if 0 <= i < n {
        assert faces[i] == init[i];
        forall j | 0 <= j < i ensures faces[j] == init[j] { }
      }
      if i == n {
        assert i !in LaterDuplicates(init, sig);
        forall j | 0 <= j < n ensures faces[j] == init[j] { }
      }
    }
  }

  /** The signature set is the set of the mapped signatures. */
  lemma SigSetMapped(faces: seq<MeshFace>, sig: MeshFace -> string, s: string)
    ensures s in SigSet(faces, sig) <==> s in MapSeq(faces, sig)
  {
    SigSetIff(faces, sig, s);
    if s in MapSeq(faces, sig) {
      var i :| 0 <= i < |faces| && MapSeq(faces, sig)[i] == s;
    }
  }

  /** Every signature that removal keeps, it keeps once: the survivors' signatures are the distinct signatures in first-seen order. */
  lemma {:induction false} FirstOfEachSignatures(faces: seq<MeshFace>, sig: MeshFace -> string)
    ensures MapSeq(FirstOfEach(faces, sig), sig) == Dedup(MapSeq(faces, sig))
  {
    if faces != [] {
      var init, last := faces[..|faces| - 1], faces[|faces| - 1];
      var firsts := FirstOfEach(init, sig);
      FirstOfEachSignatures(init, sig);
      assert MapSeq(faces, sig) == MapSeq(init, sig) + [sig(last)];
      DedupSnoc(MapSeq(init, sig), sig(last));
      SigSetMapped(init, sig, sig(last));
      if sig(last) !in SigSet(init, sig) {
        assert (firsts + [last])[..|firsts|] == firsts;
      }
    }
  }

  /** Each face is either kept or reported as a duplicate. */
  lemma {:induction false} FirstOfEachCount(faces: seq<MeshFace>, sig: MeshFace -> string)
    ensures |FirstOfEach(faces, sig)| + |LaterDuplicates(faces, sig)| == |faces|
  {
    if faces != [] {
      FirstOfEachCount(faces[..|faces| - 1], sig);
    }
  }

  lemma {:induction false} KeepAgree(faces: seq<MeshFace>, d1: set<int>, d2: set<int>)
    requires forall i :: 0 <= i < |faces| ==> (i in d1 <==> i in d2)
    ensures Keep(faces, d1) == Keep(faces, d2)
  {
    if faces != [] {
      KeepAgree(faces[..|faces| - 1], d1, d2);
    }
  }

  lemma {:induction false} KeepNone(faces: seq<MeshFace>, drop: set<int>)
    requires forall d :: d in drop ==> d >= |faces|
    ensures Keep(faces, drop) == faces
  {
    if faces != [] {
      var init := faces[..|faces| - 1];
      KeepNone(init, drop);
      assert faces == init + [faces[|faces| - 1]];
    }
  }

  /** Removing position k, below every position already removed, from the kept faces drops face k from them. */
  lemma {:induction false} KeepStep(faces: seq<MeshFace>, drop: set<int>, k: int)
    requires 0 <= k < |faces|
    requires forall d :: d in drop ==> d > k
    ensures k < |Keep(faces, drop)|
    ensures Keep(faces, drop)[..k] + Keep(faces, drop)[k + 1..] == Keep(faces, drop + {k})
  {
    var init, n := faces[..|faces| - 1], |faces| - 1;
    if n == k {
      KeepNone(faces, drop);
      KeepNone(init, drop + {k});
    } else {
      KeepStep(init, drop, k);
      var a := Keep(init, drop);
      var tail := if n in drop then [] else [faces[n]];
      assert Keep(faces, drop) == a + tail;
      assert Keep(faces, drop + {k}) == Keep(init, drop + {k}) + tail;
      assert (a + tail)[..k] == a[..k];
      assert (a + tail)[k + 1..] == a[k + 1..] + tail;
    }
  }

  function PositionSet(xs: seq<int>): set<int> { set k | k in xs }

  /** Removing every later duplicate leaves the first face of each signature. */
  lemma {:induction false} KeepLaterDuplicates(faces: seq<MeshFace>, sig: MeshFace -> string)
    ensures Keep(faces, PositionSet(LaterDuplicates(faces, sig))) == FirstOfEach(faces, sig)
  {
    if faces != [] {
      var init, n := faces[..|faces| - 1], |faces| - 1;
      var dInit := PositionSet(LaterDuplicates(init, sig));
      var dAll := PositionSet(LaterDuplicates(faces, sig));
      KeepLaterDuplicates(init, sig);
      forall i | 0 <= i < |init| ensures i in dInit <==> i in dAll {
        LaterDuplicatesIff(init, sig, i);
        LaterDuplicatesIff(faces, sig, i);
        assert faces[i] == init[i];
        forall j | 0 <= j < i ensures faces[j] == init[j] { }
      }
      KeepAgree(init, dInit, dAll);
      assert n in dAll <==> sig(faces[n]) in SigSet(init, sig) by {
        assert n !in LaterDuplicates(init, sig);
      }
    }
  }

  // ---------------------------------------------------------------------
  // Sorting the removal list
  // ---------------------------------------------------------------------

  function Reversed(xs: seq<int>): (r: seq<int>)
    ensures |r| == |xs| && forall i :: 0 <= i < |xs| ==> r[i] == xs[|xs| - 1 - i]
  {
    seq(|xs|, i requires 0 <= i < |xs| => xs[|xs| - 1 - i])
  }

  /** List<int>.Sort((a, b) => b.CompareTo(a)): the same integers, largest first. */
  function SortDescending(xs: seq<int>): seq<int>
  {
    Reversed(SortInts(xs))
  }

  /** Sorting an ascending list of distinct positions largest-first reverses it. */
  lemma SortDescendingIncreasing(xs: seq<int>)
    requires StrictlyIncreasing(xs)
    ensures SortDescending(xs) == Reversed(xs)
    ensures forall i, j :: 0 <= i < j < |xs| ==> SortDescending(xs)[i] > SortDescending(xs)[j]
    ensures forall x :: x in SortDescending(xs) <==> x in xs
  {
    SortFixed(xs);
    var r := Reversed(xs);
    forall x | x in xs ensures x in r {
      var i :| 0 <= i < |xs| && xs[i] == x;
      assert r[|xs| - 1 - i] == x;
    }
  }

  // ---------------------------------------------------------------------
  // The mesh and the repair result
  // ---------------------------------------------------------------------

  /** The faces of a Rhino mesh, which the repair passes change in place. */
  class Mesh {
    var faces: seq<MeshFace>

    constructor(faces: seq<MeshFace>)
      ensures this.faces == faces
    {
      this.faces := faces;
    }
  }

  /** What a repair reports; every pass adds to it. */
  class RepairResult {
    var success: bool
    var holesFilled: int
    var nonManifoldEdgesFixed: int
    var duplicateFacesRemoved: int
    var nakedEdgesHealed: int
    var warnings: seq<string>
    var errors: seq<string>

    constructor()
      ensures !success && holesFilled == 0 && nonManifoldEdgesFixed == 0
      ensures duplicateFacesRemoved == 0 && nakedEdgesHealed == 0
      ensures warnings == [] && errors == []
    {
      success := false;
      holesFilled := 0;
      nonManifoldEdgesFixed := 0;
      duplicateFacesRemoved := 0;
      nakedEdgesHealed := 0;
      warnings := [];
      errors := [];
    }
  }

  /** Which repair passes run, and their tolerances. */
  datatype RepairOptions = RepairOptions(
    fillHoles: bool, fixNonManifoldEdges: bool, removeDuplicateFaces: bool, healNakedEdges: bool,
    tolerance: real, maxHoleSize: real, maxRepairIterations: int)

  /** double.MaxValue. */
  const DoubleMax: real := 179769313486231570814527423731704356798070567525844996598917476803157260780028538760589558632766878171540458953514382464234321326889464182768467546703537516986049910576551282076245490090389328944075868508455133942304583236903222948165808559332123348274797826204144723168738177180919299881250404026184124858368.0

  const DefaultRepairOptions := RepairOptions(true, true, true, false, 0.000001, DoubleMax, 3)

  /** The scan both duplicate searches share: a dictionary from signature to first index, and the indices whose signature it already holds. */
  method FindLaterDuplicates(faces: seq<MeshFace>, sig: MeshFace -> string) returns (dups: seq<int>)
    ensures dups == LaterDuplicates(faces, sig)
  {
    var faceSignatures: map<string, int> := map[];
    dups := [];
    for i := 0 to |faces|
      invariant faceSignatures.Keys == SigSet(faces[..i], sig)
      invariant dups == LaterDuplicates(faces[..i], sig)
    {
      PrefixStep(faces, i);
      var signature := sig(faces[i]);
      if signature in faceSignatures {
        dups := dups + [i];
      } else {
        faceSignatures := faceSignatures[signature := i];
      }
    }
    PrefixWhole(faces);
  }

  /** RemoveAt for each position, largest first, so that the positions still to go keep their place. */
  method RemoveFacesAt(mesh: Mesh, order: seq<int>)
    requires forall i, j :: 0 <= i < j < |order| ==> order[i] > order[j]
    requires forall i :: 0 <= i < |order| ==> 0 <= order[i] < |mesh.faces|
    modifies mesh
    ensures mesh.faces == Keep(old(mesh.faces), PositionSet(order))
  {
    ghost var original := mesh.faces;
    KeepNone(original, {});
    assert PositionSet(order[..0]) == {};
    for t := 0 to |order|
      invariant mesh.faces == Keep(original, PositionSet(order[..t]))
    {
      ghost var removed := PositionSet(order[..t]);
      KeepStep(original, removed, order[t]);
      mesh.faces := mesh.faces[..order[t]] + mesh.faces[order[t] + 1..];
      assert PositionSet(order[..t + 1]) == removed + {order[t]} by {
        assert order[..t + 1] == order[..t] + [order[t]];
      }
    }
    assert order[..|order|] == order;
  }

  /** Everything a repair pass can change: the mesh's faces and the result's fields. */
  datatype RepairState = RepairState(
    faces: seq<MeshFace>, success: bool, holesFilled: int, nonManifoldEdgesFixed: int,
    duplicateFacesRemoved: int, nakedEdgesHealed: int, warnings: seq<string>, errors: seq<string>)

  function StateOf(mesh: Mesh, result: RepairResult): RepairState
    reads mesh, result
  {
    RepairState(mesh.faces, result.success, result.holesFilled, result.nonManifoldEdgesFixed,
      result.duplicateFacesRemoved, result.nakedEdgesHealed, result.warnings, result.errors)
  }

  /** A fresh RepairResult beside a mesh with the given faces. */
  function InitialState(faces: seq<MeshFace>): RepairState
  {
    RepairState(faces, false, 0, 0, 0, 0, [], [])
  }

  function DuplicatesWarning(n: int): string
  {
    "Removed " + IntToString(n) + " duplicate faces"
  }

  /** What RemoveDuplicateFaces leaves: the first face of each signature, the count removed, and a warning when any went. */
  function RemoveDuplicatesStage(s: RepairState): RepairState
  {
    var removed := |LaterDuplicates(s.faces, Signature)|;
    s.(faces := FirstOfEach(s.faces, Signature), duplicateFacesRemoved := removed,
       warnings := s.warnings + (if removed > 0 then [DuplicatesWarning(removed)] else []))
  }

  const HealWarning := "Naked edge healing is not implemented in this version"

  /** What HealNakedEdges leaves: one more warning and nothing else. */
  function HealStage(s: RepairState): RepairState
  {
    s.(warnings := s.warnings + [HealWarning])
  }

  /** After duplicate removal no two faces share a signature, the survivors keep their order, and the count removed is
      the original face count less the number of distinct signatures. */
  lemma RemoveDuplicatesFacts(s: RepairState)
    ensures var r := RemoveDuplicatesStage(s);
      && Distinct(MapSeq(r.faces, Signature))
      && MapSeq(r.faces, Signature) == Dedup(MapSeq(s.faces, Signature))
      && r.faces == Keep(s.faces, PositionSet(LaterDuplicates(s.faces, Signature)))
      && r.duplicateFacesRemoved == |s.faces| - |Dedup(MapSeq(s.faces, Signature))|
      && (r.duplicateFacesRemoved > 0 <==> |r.faces| < |s.faces|)
      && r.errors == s.errors && r.holesFilled == s.holesFilled
  {
    FirstOfEachSignatures(s.faces, Signature);
    FirstOfEachCount(s.faces, Signature);
    KeepLaterDuplicates(s.faces, Signature);
  }

  /** RemoveDuplicateFaces: drops every face whose sorted signature an earlier face has, and reports how many went. */
  method RemoveDuplicateFaces(mesh: Mesh, result: RepairResult)
    modifies mesh, result
    ensures StateOf(mesh, result) == RemoveDuplicatesStage(old(StateOf(mesh, result)))
  {
    ghost var s0 := StateOf(mesh, result);
    var facesToRemove := FindLaterDuplicates(mesh.faces, Signature);
    RemoveInOrder(mesh, facesToRemove);
    result.duplicateFacesRemoved := |facesToRemove|;
    if |facesToRemove| > 0 {
      result.warnings := result.warnings + [DuplicatesWarning(|facesToRemove|)];
    }
    ghost var r := RemoveDuplicatesStage(s0);
    assert mesh.faces == r.faces && result.warnings == r.warnings;
  }

  /** Sort the positions largest first, then remove them one by one. */
  method RemoveInOrder(mesh: Mesh, facesToRemove: seq<int>)
    requires facesToRemove == LaterDuplicates(mesh.faces, Signature)
    modifies mesh
    ensures mesh.faces == FirstOfEach(old(mesh.faces), Signature)
  {
    ghost var original := mesh.faces;
    SortDescendingIncreasing(facesToRemove);
    var order := SortDescending(facesToRemove);
    RemoveFacesAt(mesh, order);
    assert PositionSet(order) == PositionSet(facesToRemove);
    KeepLaterDuplicates(original, Signature);
  }

  /** FixNonManifoldEdges: Rhino offers no non-manifold edge query, so the edge list is always null and the pass returns at once. */
  method FixNonManifoldEdges(mesh: Mesh, result: RepairResult)
    modifies mesh, result
    ensures StateOf(mesh, result) == old(StateOf(mesh, result))
  {
  }

  /** HealNakedEdges: only reports that healing is not implemented. */
  method HealNakedEdges(mesh: Mesh, result: RepairResult)
    modifies result
    ensures StateOf(mesh, result) == HealStage(old(StateOf(mesh, result)))
  {
    result.warnings := result.warnings + [HealWarning];
  }

  /** The fan TryFillHole builds for a long loop: triangles (loop[0], loop[k + 1], loop[k + 2]). */
  function Fan(loop: seq<int>): (r: seq<MeshFace>)
    ensures |r| == if |loop| < 2 then 0 else |loop| - 2
  {
    if |loop| < 2 then [] else seq(|loop| - 2, k requires 0 <= k < |loop| - 2 => Triangle(loop[0], loop[k + 1], loop[k + 2]))
  }

  /** Every fan triangle has loop[0] as its first corner and two consecutive loop entries as the others. */
  lemma FanFacts(loop: seq<int>, k: int)
    requires 0 <= k < |loop| - 2
    ensures !Fan(loop)[k].IsQuad()
    ensures Fan(loop)[k].a == loop[0] && Fan(loop)[k].b == loop[k + 1] && Fan(loop)[k].c == loop[k + 2]
    ensures forall x :: x in Indices(Fan(loop)[k]) ==> x in loop
  {
  }

  /** whether there are no naked edges: GetNakedEdges returned null or an empty array. */
  predicate NoNakedEdges<T>(nakedEdges: Option<seq<T>>)
  {
    nakedEdges.None? || |nakedEdges.value| == 0
  }

  const ClosedMeshWarning := "No naked edges found - mesh appears to be closed"

  function FilledSummary(holesFilled: int, added: int): string
  {
    "Filled " + IntToString(holesFilled) + " holes, added " + IntToString(added) + " faces"
  }

  function OptionsOrDefault(options: Option<RepairOptions>): RepairOptions
  {
    if options.None? then DefaultRepairOptions else options.value
  }
}
