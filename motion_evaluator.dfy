// MotionEvaluator: the motion model built from a contact model. Every part
// named in the neighbour map gets a ray list, and so does every group of 2, 3
// or 4 neighbour-map keys, under its group key. The constraint normals of the
// contacts are never gathered, so every ray list is empty.
module MotionEvaluation {
  import opened Common
  import opened IntSets
  import opened Motion
  import opened Combinations
  import ContactModels

  const NoRay: seq<Vec3> := []

  // ---------------------------------------------------------------------
  // ComputePartMotionRays
  // ---------------------------------------------------------------------

  /** The part indices: the neighbour-map keys together with every neighbour they list. */
  function PartIndices(nm: map<int, set<int>>): set<int>
  {
    nm.Keys + (set k, x | k in nm && x in nm[k] :: x)
  }

  /**
   * ComputePartMotionRays: one entry per part index. The rays of a part
   * (ComputeMotionRaysForPart) are empty: its loop over the part's contacts
   * adds no constraint normal.
   */
  method ComputePartMotionRays(contacts: ContactModels.ContactModel) returns (partRays: map<int, seq<Vec3>>)
    ensures partRays.Keys == PartIndices(contacts.neighbourMap)
    ensures forall p :: p in partRays ==> partRays[p] == []
  {
    var indices := PartIndices(contacts.neighbourMap);
    var partIndices := SortedOf(indices);
    partRays := AddEmptyRays(map[], partIndices);
    assert forall p :: p in partRays.Keys <==> p in indices;
  }

  /** The loop of ComputePartMotionRays: an empty ray list stored under each index in turn. */
  method AddEmptyRays(start: map<int, seq<Vec3>>, partIndices: seq<int>) returns (partRays: map<int, seq<Vec3>>)
    requires forall p :: p in start ==> start[p] == []
    ensures forall p :: p in partRays <==> p in start || p in partIndices
    ensures forall p :: p in partRays ==> partRays[p] == []
  {
    partRays := start;
    for i := 0 to |partIndices|
      invariant forall p :: p in partRays <==> p in start || p in partIndices[..i]
      invariant forall p :: p in partRays ==> partRays[p] == []
    {
      assert partIndices[..i + 1] == partIndices[..i] + [partIndices[i]];
      var rays := NoRay;
      partRays := partRays[partIndices[i] := rays];
    }
    assert partIndices[..|partIndices|] == partIndices;
  }

  /** For a neighbour map built from contacts, which is symmetric, the part indices are its keys. */
  lemma PartIndicesOfContacts(cs: seq<ContactModels.ContactData>)
    ensures PartIndices(ContactModels.NeighbourMapOf(cs)) == ContactModels.NeighbourMapOf(cs).Keys
  {
    var nm := ContactModels.NeighbourMapOf(cs);
    forall x | x in PartIndices(nm) ensures x in nm {
      if x !in nm.Keys {
        var k :| k in nm && x in nm[k];
        ContactModels.NeighbourMapSymmetric(cs, k, x);
      }
    }
  }

  // ---------------------------------------------------------------------
  // ComputeGroupMotionRays
  // ---------------------------------------------------------------------

  const GroupSizes: seq<int> := [2, 3, 4]

  /** The groups in the order the loops visit them: all combinations of the first size, then of the next, ... */
  function GroupsOfSizes(parts: seq<int>, sizes: seq<int>): seq<seq<int>>
  {
    if sizes == [] then []
    else GroupsOfSizes(parts, sizes[..|sizes| - 1]) + CombinationsOf(parts, sizes[|sizes| - 1])
  }

  function Groups(parts: seq<int>): seq<seq<int>>
  {
    GroupsOfSizes(parts, GroupSizes)
  }

  function Keys(groups: seq<seq<int>>): (r: seq<string>)
    ensures |r| == |groups|
    ensures forall i :: 0 <= i < |groups| ==> r[i] == GroupKey(groups[i])
  {
    MapSeq(groups, (g: seq<int>) => GroupKey(g))
  }

  /** Dictionary entries with empty ray lists, one per key. */
  function NoRays(keys: seq<string>): (r: seq<(string, seq<Vec3>)>)
    ensures |r| == |keys|
    ensures forall i :: 0 <= i < |keys| ==> r[i] == (keys[i], NoRay)
  {
    MapSeq(keys, (k: string) => (k, NoRay))
  }

  /** The entries after writing empty rays under the key of each group in turn. */
  function Recorded(groups: seq<seq<int>>): seq<(string, seq<Vec3>)>
  {
    if groups == [] then []
    else SetEntry(Recorded(groups[..|groups| - 1]), GroupKey(groups[|groups| - 1]), NoRay)
  }

  /** The group rays: the neighbour-map keys are enumerated in ascending order. */
  function GroupRaysOf(nm: map<int, set<int>>): seq<(string, seq<Vec3>)>
  {
    Recorded(Groups(SortedOf(nm.Keys)))
  }

  /** The dictionary indexer's assignment: the value replaced in place under an existing key, else a new last entry. */
  function SetEntry(entries: seq<(string, seq<Vec3>)>, key: string, v: seq<Vec3>): (r: seq<(string, seq<Vec3>)>)
  {
    if entries == [] then [(key, v)]
    else if entries[0].0 == key then [(key, v)] + entries[1..]
    else [entries[0]] + SetEntry(entries[1..], key, v)
  }

  lemma {:induction false} SetEntryNew(entries: seq<(string, seq<Vec3>)>, key: string, v: seq<Vec3>)
    requires forall i :: 0 <= i < |entries| ==> entries[i].0 != key
    ensures SetEntry(entries, key, v) == entries + [(key, v)]
  {
    if entries != [] {
      var rest := entries[1..];
      forall i | 0 <= i < |rest| ensures rest[i].0 != key {
        assert rest[i] == entries[i + 1];
      }
      SetEntryNew(rest, key, v);
      assert entries == [entries[0]] + rest;
    }
  }

  lemma {:induction false} SetEntrySame(entries: seq<(string, seq<Vec3>)>, key: string, v: seq<Vec3>, i: nat)
    requires i < |entries| && entries[i].0 == key
    requires forall k :: 0 <= k < |entries| ==> entries[k].1 == v
    ensures SetEntry(entries, key, v) == entries
  {
    var rest := entries[1..];
    if entries[0].0 != key {
      assert rest[i - 1] == entries[i];
      forall k | 0 <= k < |rest| ensures rest[k].1 == v {
        assert rest[k] == entries[k + 1];
      }
      SetEntrySame(rest, key, v, i - 1);
    }
    assert entries == [entries[0]] + rest;
  }

  /** One more assignment with empty rays: the entries of the remembered keys plus the new one. */
  lemma RecordKey(keys: seq<string>, key: string)
    ensures SetEntry(NoRays(Dedup(keys)), key, NoRay) == NoRays(Dedup(keys + [key]))
  {
    DedupSnoc(keys, key);
    var d := Dedup(keys);
    if key in d {
      var i :| 0 <= i < |d| && d[i] == key;
      SetEntrySame(NoRays(d), key, NoRay, i);
    } else {
      SetEntryNew(NoRays(d), key, NoRay);
    }
  }

  lemma KeysSnoc(groups: seq<seq<int>>, g: seq<int>)
    ensures Keys(groups + [g]) == Keys(groups) + [GroupKey(g)]
  {
  }

  /** Each key is stored once, where it was first written, with an empty ray list. */
  lemma {:induction false} RecordedKeys(groups: seq<seq<int>>)
    ensures Recorded(groups) == NoRays(Dedup(Keys(groups)))
  {
    if groups != [] {
      var init, last := groups[..|groups| - 1], groups[|groups| - 1];
      RecordedKeys(init);
      RecordKey(Keys(init), GroupKey(last));
      KeysSnoc(init, last);
      assert groups == init + [last];
    }
  }

  lemma RecordedSnoc(before: seq<seq<int>>, groups: seq<seq<int>>, t: nat)
    requires t < |groups|
    ensures Recorded(before + groups[..t + 1]) == SetEntry(Recorded(before + groups[..t]), GroupKey(groups[t]), NoRay)
  {
    var visited := before + groups[..t + 1];
    assert visited == (before + groups[..t]) + [groups[t]];
    RecordedLast(before + groups[..t], groups[t]);
  }

  lemma RecordedLast(visited: seq<seq<int>>, g: seq<int>)
    ensures Recorded(visited + [g]) == SetEntry(Recorded(visited), GroupKey(g), NoRay)
  {
    assert (visited + [g])[..|visited|] == visited;
  }

  /** The inner loop of ComputeGroupMotionRays: each group written under its key, after the groups visited before. */
  method RecordGroups(entries: seq<(string, seq<Vec3>)>, ghost before: seq<seq<int>>, groups: seq<seq<int>>)
    returns (groupRays: seq<(string, seq<Vec3>)>)
    requires entries == Recorded(before)
    ensures groupRays == Recorded(before + groups)
  {
    groupRays := entries;
    assert before + groups[..0] == before;
    for t := 0 to |groups|
      invariant groupRays == Recorded(before + groups[..t])
    {
      var group := groups[t];
      var groupKey := GroupKey(group);
      var rays := NoRay;
      RecordedSnoc(before, groups, t);
      groupRays := SetEntry(groupRays, groupKey, rays);
    }
    assert groups[..|groups|] == groups;
  }

  /**
   * ComputeGroupMotionRays: for each size 2, 3, 4, every combination of the
   * neighbour-map keys is written under its group key. The rays of a group
   * (ComputeMotionRaysForGroup) are empty: its loop over the members'
   * contacts adds no constraint normal.
   */
  method ComputeGroupMotionRays(contacts: ContactModels.ContactModel) returns (groupRays: seq<(string, seq<Vec3>)>)
    ensures groupRays == GroupRaysOf(contacts.neighbourMap)
  {
    groupRays := [];
    var partIndices := SortedOf(contacts.neighbourMap.Keys);
    var sizes := GroupSizes;
    for s := 0 to |sizes|
      invariant groupRays == Recorded(GroupsOfSizes(partIndices, sizes[..s]))
    {
      assert sizes[..s + 1][..s] == sizes[..s];
      var groups := GenerateCombinations(partIndices, sizes[s]);
      groupRays := RecordGroups(groupRays, GroupsOfSizes(partIndices, sizes[..s]), groups);
    }
    assert sizes[..|sizes|] == sizes;
  }

  // ---------------------------------------------------------------------
  // EvaluateMotion
  // ---------------------------------------------------------------------

  /** The version hash; the two tolerances are passed as the text their interpolation produces. */
  function MotionHash(contactsHash: string, angleTolText: string, feasTolText: string): string
  {
    "motion_" + contactsHash + "_" + angleTolText + "_" + feasTolText
  }

  /** EvaluateMotion: the part rays, the group rays and the hash. */
  method EvaluateMotion(contacts: ContactModels.ContactModel, angleTolText: string, feasTolText: string) returns (m: MotionModel)
    ensures m.partRays.Keys == PartIndices(contacts.neighbourMap)
    ensures forall p :: p in m.partRays ==> m.partRays[p] == []
    ensures m.groupRays == GroupRaysOf(contacts.neighbourMap)
    ensures m.hash == MotionHash(contacts.hash, angleTolText, feasTolText)
  {
    var partMotionRays := ComputePartMotionRays(contacts);
    var groupMotionRays := ComputeGroupMotionRays(contacts);
    var hash := MotionHash(contacts.hash, angleTolText, feasTolText);
    m := MotionModel(partMotionRays, groupMotionRays, hash);
  }

  /** A motion model as EvaluateMotion builds it over the neighbour map nm. */
  predicate EvaluatedOver(m: MotionModel, nm: map<int, set<int>>)
  {
    && m.partRays.Keys == PartIndices(nm)
    && (forall p :: p in m.partRays ==> m.partRays[p] == [])
    && m.groupRays == GroupRaysOf(nm)
  }

  /**
   * The evaluated model holds each group key once; every lookup, of a part
   * or of a group, finds no ray; so every motion is feasible.
   */
  lemma EvaluatedModelFacts(m: MotionModel, nm: map<int, set<int>>, part: int, indices: seq<int>, v: Vec3)
    requires EvaluatedOver(m, nm)
    ensures ValidMotionModel(m)
    ensures GetPartMotionRays(m, part) == [] && IsMotionFeasible(m, part, v)
    ensures GetGroupMotionRays(m, indices) == [] && IsGroupMotionFeasible(m, indices, v)
  {
    var d := Dedup(Keys(Groups(SortedOf(nm.Keys))));
    RecordedKeys(Groups(SortedOf(nm.Keys)));
    assert KeysDistinct(m.groupRays) by {
      forall i, j | 0 <= i < j < |m.groupRays| ensures m.groupRays[i].0 != m.groupRays[j].0 {
        assert m.groupRays[i].0 == d[i] && m.groupRays[j].0 == d[j];
      }
    }
    var key := GroupKey(indices);
    if HasKey(m.groupRays, key) {
      var i :| 0 <= i < |m.groupRays| && m.groupRays[i].0 == key;
      LookupDistinct(m.groupRays, key, [], i);
    }
  }

  // ---------------------------------------------------------------------
  // The group keys
  // ---------------------------------------------------------------------

  predicate NonNegativeInt32(g: seq<int>)
  {
    forall i :: 0 <= i < |g| ==> 0 <= g[i] <= INT32_MAX
  }

  /** The key of an ascending group of non-negative 32-bit indices parses back to the group. */
  lemma GroupKeyParses(g: seq<int>)
    requires StrictlyIncreasing(g) && NonNegativeInt32(g)
    ensures ParseGroupKey(GroupKey(g)) == Ok(g)
  {
    ParseGroupKeyInverse(g);
    SortFixed(g);
  }

  lemma IncreasingOrdered(c: seq<int>, a: nat, b: nat)
    requires Increasing(c) && a < b < |c|
    ensures c[a] < c[b]
  {
    var t := c[a..];
    forall q | 0 <= q < |t| - 1 ensures t[q] < t[q + 1] {
      assert t[q] == c[a + q] && t[q + 1] == c[a + q + 1];
    }
    IncreasingGap(t, b - a);
    assert t[b - a] == c[b];
  }

  /** A combination of ascending parts has size members of the parts, in ascending order. */
  lemma CombinationGroup(parts: seq<int>, size: int, i: nat)
    requires StrictlyIncreasing(parts) && i < |CombinationsOf(parts, size)|
    ensures var g := CombinationsOf(parts, size)[i];
      |g| == size && StrictlyIncreasing(g) && forall x :: x in g ==> x in parts
  {
    CombinationsFacts(parts, size, i, 0);
    var c := CombosFrom(0, |parts|, size)[i];
    var g := CombinationsOf(parts, size)[i];
    assert g == Pick(parts, c);
    assert Within(c, 0, |parts|);
    forall a, b | 0 <= a < b < |g| ensures g[a] < g[b] {
      IncreasingOrdered(c, a, b);
    }
    forall x | x in g ensures x in parts {
      var q :| 0 <= q < |g| && g[q] == x;
      assert g[q] == parts[c[q]];
    }
  }

  /** Two positions of the combinations list hold different groups. */
  lemma CombinationsDistinct(parts: seq<int>, size: int, i: nat, j: nat)
    requires StrictlyIncreasing(parts) && i < j < |CombinationsOf(parts, size)|
    ensures CombinationsOf(parts, size)[i] != CombinationsOf(parts, size)[j]
  {
    CombinationsFacts(parts, size, i, j);
    var cs := CombosFrom(0, |parts|, size);
    CombinationsFacts(parts, size, j, 0);
    var p: nat :| LessAt(cs[i], cs[j], p);
    assert Within(cs[i], 0, |parts|) && Within(cs[j], 0, |parts|);
    assert CombinationsOf(parts, size)[i][p] == parts[cs[i][p]];
    assert CombinationsOf(parts, size)[j][p] == parts[cs[j][p]];
  }

  lemma {:induction false} GroupsOfSizesShape(parts: seq<int>, sizes: seq<int>, i: nat)
    requires StrictlyIncreasing(parts) && i < |GroupsOfSizes(parts, sizes)|
    ensures var g := GroupsOfSizes(parts, sizes)[i];
      |g| in sizes && StrictlyIncreasing(g) && forall x :: x in g ==> x in parts
  {
    var init := sizes[..|sizes| - 1];
    var a := GroupsOfSizes(parts, init);
    if i < |a| {
      GroupsOfSizesShape(parts, init, i);
      var g := a[i];
      assert |g| in sizes by {
        var k :| 0 <= k < |init| && init[k] == |g|;
        assert sizes[k] == init[k];
      }
    } else {
      CombinationGroup(parts, sizes[|sizes| - 1], i - |a|);
    }
  }

  /** With increasing sizes, no group is visited twice. */
  lemma {:induction false} GroupsOfSizesDistinct(parts: seq<int>, sizes: seq<int>)
    requires StrictlyIncreasing(parts) && StrictlyIncreasing(sizes)
    ensures Distinct(GroupsOfSizes(parts, sizes))
  {
    if sizes != [] {
      var init, last := sizes[..|sizes| - 1], sizes[|sizes| - 1];
      var a := GroupsOfSizes(parts, init);
      var b := CombinationsOf(parts, last);
      assert StrictlyIncreasing(init) by {
        forall i, j | 0 <= i < j < |init| ensures init[i] < init[j] {
          assert init[i] == sizes[i] && init[j] == sizes[j];
        }
      }
      GroupsOfSizesDistinct(parts, init);
      forall i, j | 0 <= i < j < |a + b| ensures (a + b)[i] != (a + b)[j] {
        if j < |a| {
          assert (a + b)[i] == a[i] && (a + b)[j] == a[j];
        } else if i >= |a| {
          CombinationsDistinct(parts, last, i - |a|, j - |a|);
        } else {
          GroupsOfSizesShape(parts, init, i);
          CombinationGroup(parts, last, j - |a|);
          var k :| 0 <= k < |init| && init[k] == |a[i]|;
          assert sizes[k] == init[k];
        }
      }
    }
  }

  lemma GroupsOfSizesCount(parts: seq<int>)
    ensures |Groups(parts)| == Binomial(|parts|, 2) + Binomial(|parts|, 3) + Binomial(|parts|, 4)
  {
    assert GroupSizes[..2] == [2, 3] && [2, 3][..1] == [2] && [2][..0] == [];
    var g2 := GroupsOfSizes(parts, [2]);
    var g3 := GroupsOfSizes(parts, [2, 3]);
    assert GroupsOfSizes(parts, []) == [];
    assert g2 == GroupsOfSizes(parts, []) + CombinationsOf(parts, 2);
    assert g3 == g2 + CombinationsOf(parts, 3);
    assert Groups(parts) == g3 + CombinationsOf(parts, 4);
    forall size | 2 <= size <= 4 ensures |CombinationsOf(parts, size)| == Binomial(|parts|, size) {
      CombinationsFacts(parts, size, 0, 0);
      if |parts| < size {
        BinomialBeyond(|parts|, size);
      }
    }
  }

  /** Different groups of non-negative 32-bit indices have different keys. */
  lemma KeysOfDistinctGroups(groups: seq<seq<int>>)
    requires Distinct(groups)
    requires forall i :: 0 <= i < |groups| ==> StrictlyIncreasing(groups[i]) && NonNegativeInt32(groups[i])
    ensures Distinct(Keys(groups))
  {
    forall i, j | 0 <= i < j < |groups| ensures Keys(groups)[i] != Keys(groups)[j] {
      GroupKeyParses(groups[i]);
      GroupKeyParses(groups[j]);
    }
  }

  /** Over ascending non-negative 32-bit parts, the visited groups have pairwise different keys. */
  lemma GroupKeysDistinct(parts: seq<int>)
    requires StrictlyIncreasing(parts) && NonNegativeInt32(parts)
    ensures Distinct(Keys(Groups(parts)))
  {
    var groups := Groups(parts);
    assert StrictlyIncreasing(GroupSizes);
    GroupsOfSizesDistinct(parts, GroupSizes);
    forall k | 0 <= k < |groups| ensures StrictlyIncreasing(groups[k]) && NonNegativeInt32(groups[k]) {
      GroupsOfSizesShape(parts, GroupSizes, k);
      forall q | 0 <= q < |groups[k]| ensures 0 <= groups[k][q] <= INT32_MAX {
        var x := groups[k][q];
        assert x in groups[k];
        var n :| 0 <= n < |parts| && parts[n] == x;
      }
    }
    KeysOfDistinctGroups(groups);
  }

  predicate KeysInRange(nm: map<int, set<int>>)
  {
    forall k :: k in nm ==> 0 <= k <= INT32_MAX
  }

  /**
   * With neighbour-map keys that are non-negative 32-bit integers, no key is
   * written twice: there is one entry per visited group, in visiting order.
   */
  lemma GroupRaysDistinct(nm: map<int, set<int>>)
    requires KeysInRange(nm)
    ensures GroupRaysOf(nm) == NoRays(Keys(Groups(SortedOf(nm.Keys))))
  {
    var parts := SortedOf(nm.Keys);
    var groups := Groups(parts);
    assert NonNegativeInt32(parts) by {
      forall q | 0 <= q < |parts| ensures 0 <= parts[q] <= INT32_MAX {
        assert parts[q] in nm;
      }
    }
    GroupKeysDistinct(parts);
    DedupDistinct(Keys(groups));
    RecordedKeys(groups);
  }

  /** There are then C(m,2) + C(m,3) + C(m,4) group entries for m neighbour-map keys. */
  lemma GroupRaysCount(nm: map<int, set<int>>)
    requires KeysInRange(nm)
    ensures |GroupRaysOf(nm)| == Binomial(|nm.Keys|, 2) + Binomial(|nm.Keys|, 3) + Binomial(|nm.Keys|, 4)
  {
    GroupRaysDistinct(nm);
    GroupsOfSizesCount(SortedOf(nm.Keys));
  }

  /** And each group key parses back to its group: 2 to 4 neighbour-map keys in ascending order. */
  lemma GroupRaysParse(nm: map<int, set<int>>, i: nat)
    requires KeysInRange(nm) && i < |Groups(SortedOf(nm.Keys))|
    ensures |GroupRaysOf(nm)| == |Groups(SortedOf(nm.Keys))|
    ensures var g := Groups(SortedOf(nm.Keys))[i];
      && ParseGroupKey(GroupRaysOf(nm)[i].0) == Ok(g)
      && 2 <= |g| <= 4 && StrictlyIncreasing(g)
      && forall x :: x in g ==> x in nm
  {
    var parts := SortedOf(nm.Keys);
    var groups := Groups(parts);
    GroupRaysDistinct(nm);
    GroupsOfSizesShape(parts, GroupSizes, i);
    var g := groups[i];
    assert NonNegativeInt32(g) by {
      forall q | 0 <= q < |g| ensures 0 <= g[q] <= INT32_MAX {
        assert g[q] in g;
      }
    }
    GroupKeyParses(g);
  }

  function IndexIn(xs: seq<int>, x: int): (k: nat)
    requires x in xs
    ensures k < |xs| && xs[k] == x
  {
    if xs[0] == x then 0 else 1 + IndexIn(xs[1..], x)
  }

  lemma {:induction false} InGroupsOfSizes(parts: seq<int>, sizes: seq<int>, g: seq<int>, k: nat)
    requires k < |sizes| && g in CombinationsOf(parts, sizes[k])
    ensures g in GroupsOfSizes(parts, sizes)
  {
    var init := sizes[..|sizes| - 1];
    if k < |init| {
      assert init[k] == sizes[k];
      InGroupsOfSizes(parts, init, g, k);
    }
  }

  /** Every ascending group of 2 to 4 of the parts is visited. */
  lemma GroupVisited(parts: seq<int>, g: seq<int>)
    requires StrictlyIncreasing(parts)
    requires StrictlyIncreasing(g) && 2 <= |g| <= 4
    requires forall x :: x in g ==> x in parts
    ensures g in Groups(parts)
  {
    var c := seq(|g|, q requires 0 <= q < |g| => IndexIn(parts, g[q]));
    forall q | 0 <= q < |c| - 1 ensures c[q] < c[q + 1] {
      assert parts[c[q]] == g[q] < g[q + 1] == parts[c[q + 1]];
    }
    assert Within(c, 0, |parts|);
    CombosComplete(0, |parts|, |g|, c);
    var cs := CombosFrom(0, |parts|, |g|);
    var i :| 0 <= i < |cs| && cs[i] == c;
    CombinationsFacts(parts, |g|, i, 0);
    assert CombinationsOf(parts, |g|)[i] == g;
    assert |g| == GroupSizes[|g| - 2];
    InGroupsOfSizes(parts, GroupSizes, g, |g| - 2);
  }

  /** Every ascending group of 2 to 4 neighbour-map keys has an entry under its key. */
  lemma GroupRaysComplete(nm: map<int, set<int>>, g: seq<int>)
    requires StrictlyIncreasing(g) && 2 <= |g| <= 4
    requires forall x :: x in g ==> x in nm
    ensures HasKey(GroupRaysOf(nm), GroupKey(g))
  {
    var parts := SortedOf(nm.Keys);
    GroupVisited(parts, g);
    var groups := Groups(parts);
    RecordedKeys(groups);
    var j :| 0 <= j < |groups| && groups[j] == g;
    var d := Dedup(Keys(groups));
    assert Keys(groups)[j] in d;
    var n :| 0 <= n < |d| && d[n] == GroupKey(g);
    assert GroupRaysOf(nm)[n].0 == GroupKey(g);
  }
}
