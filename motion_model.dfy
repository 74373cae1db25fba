// The read-only motion model: the extreme rays of the motion cone of every part
// and of every part group, keyed by part index or by a group key such as "1-4-7".
module Motion {
  import opened Common
  import IntSets

  /** Rhino's Vector3d, with exact real arithmetic standing in for doubles. */
  datatype Vec3 = Vec3(x: real, y: real, z: real)
  {
    /** The unary minus of Vector3d. */
    function Negate(): Vec3 { Vec3(-x, -y, -z) }
  }

  const ZAxis: Vec3 := Vec3(0.0, 0.0, 1.0)

  /** The default tolerance 1e-9 of the feasibility tests. */
  const Tolerance: real := 0.000000001

  function Dot(a: Vec3, b: Vec3): real
  {
    a.x * b.x + a.y * b.y + a.z * b.z
  }

  /**
   * PartMotionRays (a dictionary from part index) and GroupMotionRays (a dictionary
   * from group key, kept as its entries in enumeration order), plus the version hash.
   */
  datatype MotionModel = MotionModel(partRays: map<int, seq<Vec3>>, groupRays: seq<(string, seq<Vec3>)>, hash: string)

  /** The group keys as a dictionary holds them: each key once. */
  predicate ValidMotionModel(m: MotionModel)
  {
    KeysDistinct(m.groupRays)
  }

  /** The constructor: the name of the first null argument is the ArgumentNullException it throws. */
  function NewMotionModel(partRays: Option<map<int, seq<Vec3>>>, groupRays: Option<seq<(string, seq<Vec3>)>>,
                          hash: Option<string>): (r: Result<MotionModel, string>)
    ensures r.Ok? <==> partRays.Some? && groupRays.Some? && hash.Some?
    ensures r.Ok? ==> r.value == MotionModel(partRays.value, groupRays.value, hash.value)
    ensures partRays.None? ==> r == Err("partMotionRays")
    ensures partRays.Some? && groupRays.None? ==> r == Err("groupMotionRays")
    ensures partRays.Some? && groupRays.Some? && hash.None? ==> r == Err("hash")
  {
    if partRays.None? then Err("partMotionRays")
    else if groupRays.None? then Err("groupMotionRays")
    else if hash.None? then Err("hash")
    else Ok(MotionModel(partRays.value, groupRays.value, hash.value))
  }

  function PartCount(m: MotionModel): nat { |m.partRays| }

  function GroupCount(m: MotionModel): nat { |m.groupRays| }

  /** GetPartMotionRays: the rays of a known part, the empty list for any other index. */
  function GetPartMotionRays(m: MotionModel, part: int): (r: seq<Vec3>)
    ensures part !in m.partRays ==> r == []
    ensures part in m.partRays ==> r == m.partRays[part]
  {
    if part in m.partRays then m.partRays[part] else []
  }

  /** GetGroupMotionRays(string): the empty list for an unknown key. */
  function GetGroupMotionRaysByKey(m: MotionModel, key: string): (r: seq<Vec3>)
    ensures !HasKey(m.groupRays, key) ==> r == []
    ensures forall i :: 0 <= i < |m.groupRays| && m.groupRays[i].0 == key && (forall j :: 0 <= j < i ==> m.groupRays[j].0 != key)
              ==> r == m.groupRays[i].1
  {
    LookupOr(m.groupRays, key, [])
  }

  /** The group key of a set of part indices: ascending order, joined by "-". */
  function GroupKey(indices: seq<int>): string
  {
    Join(MapSeq(IntSets.SortInts(indices), (n: int) => IntToString(n)), "-")
  }

  /** GetGroupMotionRays(IEnumerable<int>). */
  function GetGroupMotionRays(m: MotionModel, indices: seq<int>): seq<Vec3>
  {
    GetGroupMotionRaysByKey(m, GroupKey(indices))
  }

  /** Every ray admits the motion: no dot product falls below -tolerance. */
  predicate AdmittedBy(rays: seq<Vec3>, v: Vec3)
  {
    forall i :: 0 <= i < |rays| ==> Dot(rays[i], v) >= -Tolerance
  }

  /** IsMotionFeasible, with the default tolerance. */
  predicate IsMotionFeasible(m: MotionModel, part: int, v: Vec3)
  {
    var rays := GetPartMotionRays(m, part);
    |rays| == 0 || AdmittedBy(rays, v)
  }

  /** IsGroupMotionFeasible, with the default tolerance. */
  predicate IsGroupMotionFeasible(m: MotionModel, indices: seq<int>, v: Vec3)
  {
    var rays := GetGroupMotionRays(m, indices);
    |rays| == 0 || AdmittedBy(rays, v)
  }

  /** GetAllGroupKeys, in the dictionary's enumeration order. */
  function GetAllGroupKeys(m: MotionModel): (r: seq<string>)
    ensures |r| == |m.groupRays|
    ensures forall i :: 0 <= i < |r| ==> r[i] == m.groupRays[i].0
  {
    MapSeq(m.groupRays, (e: (string, seq<Vec3>)) => e.0)
  }

  /** int.Parse applied to each piece in turn: the values, or the exception of the first piece that fails. */
  function ParseAll(pieces: seq<string>): (r: Result<seq<int>, string>)
    ensures r.Ok? ==> |r.value| == |pieces|
  {
    if pieces == [] then Ok([])
    else match IntParse(pieces[0])
      case Err(e) => Err(e)
      case Ok(v) =>
        match ParseAll(pieces[1..])
        case Err(e) => Err(e)
        case Ok(vs) => Ok([v] + vs)
  }

  /** ParseGroupKey: split on '-' dropping empty pieces, then int.Parse every piece. */
  function ParseGroupKey(key: string): Result<seq<int>, string>
  {
    ParseAll(SplitCharsRemoveEmpty(key, {'-'}))
  }

  // ---------------------------------------------------------------------
  // Properties
  // ---------------------------------------------------------------------

  /** Index order does not matter: any rearrangement of the indices gives the same key. */
  lemma GroupKeyOrderFree(a: seq<int>, b: seq<int>)
    requires multiset(a) == multiset(b)
    ensures GroupKey(a) == GroupKey(b)
  {
    IntSets.SortIntsFacts(a);
    IntSets.SortIntsFacts(b);
    IntSets.AscendingUnique(IntSets.SortInts(a), IntSets.SortInts(b));
  }

  /** Hence the group rays, and group feasibility, do not depend on the order of the indices. */
  lemma GroupRaysOrderFree(m: MotionModel, a: seq<int>, b: seq<int>, v: Vec3)
    requires multiset(a) == multiset(b)
    ensures GetGroupMotionRays(m, a) == GetGroupMotionRays(m, b)
    ensures IsGroupMotionFeasible(m, a, v) == IsGroupMotionFeasible(m, b, v)
  {
    GroupKeyOrderFree(a, b);
  }

  lemma {:induction false} ParseAllOk(pieces: seq<string>, vs: seq<int>)
    requires |pieces| == |vs|
    requires forall k :: 0 <= k < |pieces| ==> IntParse(pieces[k]) == Ok(vs[k])
    ensures ParseAll(pieces) == Ok(vs)
  {
    if pieces != [] {
      var tail, values := pieces[1..], vs[1..];
      forall k | 0 <= k < |tail| ensures IntParse(tail[k]) == Ok(values[k]) {
        assert tail[k] == pieces[k + 1] && values[k] == vs[k + 1];
      }
      ParseAllOk(tail, values);
      ParseAllCons(pieces, vs[0], values);
      assert vs == [vs[0]] + values;
    }
  }

  lemma ParseAllCons(pieces: seq<string>, v: int, values: seq<int>)
    requires pieces != [] && IntParse(pieces[0]) == Ok(v) && ParseAll(pieces[1..]) == Ok(values)
    ensures ParseAll(pieces) == Ok([v] + values)
  {
  }

  /** ParseGroupKey inverts the key format for non-negative 32-bit indices, giving them back in ascending order. */
  lemma ParseGroupKeyInverse(indices: seq<int>)
    requires forall i :: 0 <= i < |indices| ==> 0 <= indices[i] <= INT32_MAX
    ensures ParseGroupKey(GroupKey(indices)) == Ok(IntSets.SortInts(indices))
  {
    var sorted := IntSets.SortInts(indices);
    IntSets.SortIntsFacts(indices);
    var pieces := MapSeq(sorted, (n: int) => IntToString(n));
    forall k | 0 <= k < |sorted| ensures 0 <= sorted[k] <= INT32_MAX {
      assert sorted[k] in multiset(indices);
    }
    forall k | 0 <= k < |pieces| ensures pieces[k] != [] && Free(pieces[k], '-') && IntParse(pieces[k]) == Ok(sorted[k]) {
      NatToStringNoMinus(sorted[k]);
      IntToStringParses(sorted[k]);
    }
    SplitRemoveEmptyJoin(pieces, '-');
    ParseAllOk(pieces, sorted);
  }

  /** With no rays every direction is feasible, for a part and for a group. */
  lemma NoRaysFeasible(m: MotionModel, part: int, indices: seq<int>, v: Vec3)
    ensures part !in m.partRays ==> IsMotionFeasible(m, part, v)
    ensures GetGroupMotionRays(m, indices) == [] ==> IsGroupMotionFeasible(m, indices, v)
  {
  }
}
