// The constraint builder: textual constraints per part and per part group,
// combined from the graph model (in-degrees, components, blocking edges) and
// the motion model (motion rays per part and per group key).
module ConstraintGraphs {
  import opened Common
  import opened IntSets
  import opened Motion
  import opened PlanningGraph
  import opened Constraints

  // ---------------------------------------------------------------------
  // CheckExternalBlocking
  // ---------------------------------------------------------------------

  /** The edge runs from a part outside the group to a part inside it. */
  predicate BlocksFromOutside(e: BlockingEdge, group: seq<int>)
  {
    e.to in group && e.from !in group
  }

  /** The From ids of the blocking edges that enter the group from outside. */
  function BlockersOf(edges: seq<BlockingEdge>, group: seq<int>): set<int>
  {
    if edges == [] then {}
    else
      var rest := BlockersOf(edges[..|edges| - 1], group);
      var e := edges[|edges| - 1];
      if BlocksFromOutside(e, group) then rest + {e.from} else rest
  }

  /** Some edge from x enters the group from outside. */
  ghost predicate BlocksGroup(edges: seq<BlockingEdge>, group: seq<int>, x: int)
  {
    ExistsIn(edges, (e: BlockingEdge) => e.from == x && BlocksFromOutside(e, group))
  }

  lemma {:induction false} BlockersOfIff(edges: seq<BlockingEdge>, group: seq<int>, x: int)
    ensures x in BlockersOf(edges, group) <==> BlocksGroup(edges, group, x)
  {
    if edges != [] {
      BlockersOfIff(edges[..|edges| - 1], group, x);
      ExistsInSnoc(edges, (e: BlockingEdge) => e.from == x && BlocksFromOutside(e, group));
    }
  }

  /** The result of CheckExternalBlocking: the blockers in ascending order. */
  function ExternalBlockers(group: seq<int>, g: GraphModel): seq<int>
  {
    SortedOf(BlockersOf(g.directional.edges, group))
  }

  /** CheckExternalBlocking: one pass over the edges collecting a set, then sorted. */
  method CheckExternalBlocking(groupParts: seq<int>, g: GraphModel) returns (r: seq<int>)
    ensures r == ExternalBlockers(groupParts, g)
    ensures StrictlyIncreasing(r)
    ensures forall x :: x in r <==> BlocksGroup(g.directional.edges, groupParts, x)
  {
    var groupSet := set x | x in groupParts;
    var externalBlockers: set<int> := {};
    var edges := g.directional.edges;
    for i := 0 to |edges|
      invariant externalBlockers == BlockersOf(edges[..i], groupParts)
    {
      PrefixStep(edges, i);
      var edge := edges[i];
      if edge.to in groupSet && edge.from !in groupSet {
        externalBlockers := externalBlockers + {edge.from};
      }
    }
    PrefixWhole(edges);
    r := SortedOf(externalBlockers);
    forall x ensures x in r <==> BlocksGroup(edges, groupParts, x) {
      BlockersOfIff(edges, groupParts, x);
    }
  }

  // ---------------------------------------------------------------------
  // BuildPartConstraints
  // ---------------------------------------------------------------------

  function InDegreeLine(d: int): string
  {
    "Blocked by " + IntToString(d) + " incoming edge(s) in graph"
  }

  function PartRaysLine(n: int): string
  {
    "Constrained by " + IntToString(n) + " motion direction(s)"
  }

  function ComponentLine(c: Component): string
  {
    "Part of SCC " + IntToString(c.componentId) + " with " + IntToString(|c.members|) + " parts"
  }

  /** The constraints of one part: its in-degree, its motion rays, and its component if it has one. */
  function PartLines(g: GraphModel, m: MotionModel, part: int): seq<string>
  {
    [InDegreeLine(GetInDegree(g, part)), PartRaysLine(|GetPartMotionRays(m, part)|)]
    + (var scc := GetComponentForNode(g, part); if scc.Some? then [ComponentLine(scc.value)] else [])
  }

  /** Nodes.Union(PartMotionRays.Keys): the graph nodes, then the other motion parts, each once. */
  function AllParts(g: GraphModel, m: MotionModel): (r: seq<int>)
    ensures Distinct(r)
    ensures forall p :: p in r <==> p in g.directional.nodes || p in m.partRays
  {
    Dedup(g.directional.nodes + SortedOf(m.partRays.Keys))
  }

  /** The part dictionary's entries, in insertion order. */
  function PartEntries(g: GraphModel, m: MotionModel, parts: seq<int>): (r: seq<(int, seq<string>)>)
    ensures |r| == |parts|
  {
    if parts == [] then []
    else PartEntries(g, m, parts[..|parts| - 1]) + [(parts[|parts| - 1], PartLines(g, m, parts[|parts| - 1]))]
  }

  lemma {:induction false} PartEntriesAt(g: GraphModel, m: MotionModel, parts: seq<int>, i: nat)
    requires i < |parts|
    ensures PartEntries(g, m, parts)[i] == (parts[i], PartLines(g, m, parts[i]))
  {
    if i < |parts| - 1 {
      PartEntriesAt(g, m, parts[..|parts| - 1], i);
    }
  }

  /** Each part has two lines, and a third exactly when it belongs to a component. */
  lemma PartLinesCount(g: GraphModel, m: MotionModel, part: int)
    ensures |PartLines(g, m, part)| == if GetComponentForNode(g, part).Some? then 3 else 2
  {
  }

  /** The loop body of BuildPartConstraints: the lines of one part, built in turn. */
  method PartConstraintLines(g: GraphModel, m: MotionModel, partIndex: int) returns (constraints: seq<string>)
    ensures constraints == PartLines(g, m, partIndex)
  {
    constraints := [InDegreeLine(GetInDegree(g, partIndex))];
    constraints := constraints + [PartRaysLine(|GetPartMotionRays(m, partIndex)|)];
    var scc := GetComponentForNode(g, partIndex);
    if scc.Some? {
      constraints := constraints + [ComponentLine(scc.value)];
    }
  }

  /**
   * BuildPartConstraints. Writing partConstraints[p] appends an entry, since
   * the parts are distinct.
   */
  method BuildPartConstraints(g: GraphModel, m: MotionModel) returns (entries: seq<(int, seq<string>)>)
    ensures entries == PartEntries(g, m, AllParts(g, m))
  {
    var allParts := AllParts(g, m);
    entries := [];
    for i := 0 to |allParts|
      invariant entries == PartEntries(g, m, allParts[..i])
    {
      PrefixStep(allParts, i);
      var partIndex := allParts[i];
      var constraints := PartConstraintLines(g, m, partIndex);
      entries := entries + [(partIndex, constraints)];
    }
    PrefixWhole(allParts);
  }

  /** One entry per part of the graph or the motion model, each key once, with that part's lines. */
  lemma PartEntriesFacts(g: GraphModel, m: MotionModel, part: int)
    ensures var es := PartEntries(g, m, AllParts(g, m));
      && KeysDistinct(es)
      && (HasKey(es, part) <==> part in g.directional.nodes || part in m.partRays)
      && (HasKey(es, part) ==> LookupOr(es, part, []) == PartLines(g, m, part))
  {
    var ps := AllParts(g, m);
    var es := PartEntries(g, m, ps);
    forall i | 0 <= i < |ps| ensures es[i].0 == ps[i] {
      PartEntriesAt(g, m, ps, i);
    }
    if part in ps {
      var i :| 0 <= i < |ps| && ps[i] == part;
      PartEntriesAt(g, m, ps, i);
      LookupDistinct(es, part, [], i);
    }
  }

  // ---------------------------------------------------------------------
  // BuildGroupConstraints
  // ---------------------------------------------------------------------

  /** The position of the component GetComponentForNode returns (the object, by identity). */
  function ComponentIndex(g: GraphModel, node: int): (r: Option<nat>)
    ensures r.Some? ==> r.value < |g.components|
  {
    FirstComponentAt(g.components, node, 0)
  }

  function FirstComponentAt(cs: seq<Component>, node: int, from: nat): (r: Option<nat>)
    requires from <= |cs|
    ensures r.Some? ==> from <= r.value < |cs|
    decreases |cs| - from
  {
    if from == |cs| then None
    else if node in cs[from].members then Some(from)
    else FirstComponentAt(cs, node, from + 1)
  }

  lemma {:induction false} FirstComponentAtAgrees(cs: seq<Component>, node: int, from: nat)
    requires from <= |cs|
    ensures var r := FirstComponentAt(cs, node, from);
      FirstComponent(cs[from..], node) == if r.None? then None else Some(cs[r.value])
    decreases |cs| - from
  {
    if from < |cs| && node !in cs[from].members {
      assert cs[from..][1..] == cs[from + 1..];
      FirstComponentAtAgrees(cs, node, from + 1);
    }
  }

  /** The position names the component GetComponentForNode returns. */
  lemma ComponentIndexAgrees(g: GraphModel, node: int)
    ensures var r := ComponentIndex(g, node);
      GetComponentForNode(g, node) == if r.None? then None else Some(g.components[r.value])
  {
    FirstComponentAtAgrees(g.components, node, 0);
    assert g.components[0..] == g.components;
  }

  /** Select(GetComponentForNode).Where(not null): the components of the parts, by position. */
  function ComponentIndices(g: GraphModel, parts: seq<int>): (r: seq<nat>)
    ensures forall i :: 0 <= i < |r| ==> r[i] < |g.components|
  {
    if parts == [] then []
    else
      var rest := ComponentIndices(g, parts[..|parts| - 1]);
      var c := ComponentIndex(g, parts[|parts| - 1]);
      if c.Some? then rest + [c.value] else rest
  }

  /** A part of the group with a component contributes that component and nothing else does. */
  lemma {:induction false} ComponentIndicesIff(g: GraphModel, parts: seq<int>, k: nat)
    ensures k in ComponentIndices(g, parts) <==> exists i :: 0 <= i < |parts| && ComponentIndex(g, parts[i]) == Some(k)
  {
    if parts != [] {
      var init := parts[..|parts| - 1];
      ComponentIndicesIff(g, init, k);
      if exists i :: 0 <= i < |init| && ComponentIndex(g, init[i]) == Some(k) {
        var i :| 0 <= i < |init| && ComponentIndex(g, init[i]) == Some(k);
        assert parts[i] == init[i];
      }
      if exists i :: 0 <= i < |parts| && ComponentIndex(g, parts[i]) == Some(k) {
        var i :| 0 <= i < |parts| && ComponentIndex(g, parts[i]) == Some(k);
        if i < |init| {
          assert init[i] == parts[i];
        }
      }
    }
  }

  /** The group's parts lie in exactly one component object: some part has one, and all that have one share it. */
  lemma SingleComponentIff(g: GraphModel, parts: seq<int>)
    ensures |Dedup(ComponentIndices(g, parts))| == 1 <==>
      && (exists i :: 0 <= i < |parts| && ComponentIndex(g, parts[i]).Some?)
      && forall i, j :: 0 <= i < |parts| && 0 <= j < |parts| && ComponentIndex(g, parts[i]).Some? && ComponentIndex(g, parts[j]).Some?
           ==> ComponentIndex(g, parts[i]) == ComponentIndex(g, parts[j])
  {
    var ks := ComponentIndices(g, parts);
    DedupSingleton(ks);
    if exists i :: 0 <= i < |parts| && ComponentIndex(g, parts[i]).Some? {
      var i :| 0 <= i < |parts| && ComponentIndex(g, parts[i]).Some?;
      ComponentIndicesIff(g, parts, ComponentIndex(g, parts[i]).value);
    }
    if ks != [] && forall i :: 0 <= i < |ks| ==> ks[i] == ks[0] {
      forall i, j | 0 <= i < |parts| && 0 <= j < |parts| && ComponentIndex(g, parts[i]).Some? && ComponentIndex(g, parts[j]).Some?
        ensures ComponentIndex(g, parts[i]) == ComponentIndex(g, parts[j])
      {
        ComponentIndicesIff(g, parts, ComponentIndex(g, parts[i]).value);
        ComponentIndicesIff(g, parts, ComponentIndex(g, parts[j]).value);
      }
    }
    if (exists i :: 0 <= i < |parts| && ComponentIndex(g, parts[i]).Some?)
      && forall i, j :: 0 <= i < |parts| && 0 <= j < |parts| && ComponentIndex(g, parts[i]).Some? && ComponentIndex(g, parts[j]).Some?
           ==> ComponentIndex(g, parts[i]) == ComponentIndex(g, parts[j])
    {
      forall k | 0 <= k < |ks| ensures ks[k] == ks[0] {
        ComponentIndicesIff(g, parts, ks[k]);
        ComponentIndicesIff(g, parts, ks[0]);
      }
    }
  }

  const SccPrefix := "All parts in SCC "
  const ExternalOutgoingLine := "SCC has external outgoing edges"
  const BlockingPrefix := "External blocking from parts: "

  function GroupRaysLine(n: int): string
  {
    "Group constrained by " + IntToString(n) + " motion direction(s)"
  }

  /** The lines about the group's single component, if it has exactly one. */
  function SccLines(g: GraphModel, parts: seq<int>): (r: seq<string>)
    ensures |r| <= 2
  {
    var sccs := Dedup(ComponentIndices(g, parts));
    if |sccs| == 1 then
      var scc := g.components[sccs[0]];
      [SccPrefix + IntToString(scc.componentId)] + (if scc.hasExternalOutgoing then [ExternalOutgoingLine] else [])
    else []
  }

  function BlockingLines(blockers: seq<int>): seq<string>
  {
    if |blockers| > 0 then [BlockingPrefix + Join(MapSeq(blockers, (n: int) => IntToString(n)), ", ")] else []
  }

  /** The constraints of one group key with its parsed part indices. */
  function GroupLines(g: GraphModel, m: MotionModel, key: string, parts: seq<int>): seq<string>
  {
    SccLines(g, parts) + [GroupRaysLine(|GetGroupMotionRaysByKey(m, key)|)] + BlockingLines(ExternalBlockers(parts, g))
  }

  /** The group dictionary's entries; the first key that does not parse throws. */
  function GroupEntries(g: GraphModel, m: MotionModel, keys: seq<string>): Result<seq<(string, seq<string>)>, string>
  {
    if keys == [] then Ok([])
    else
      match GroupEntries(g, m, keys[..|keys| - 1])
      case Err(e) => Err(e)
      case Ok(es) =>
        var key := keys[|keys| - 1];
        match ParseGroupKey(key)
        case Err(e) => Err(e)
        case Ok(parts) => Ok(es + [(key, GroupLines(g, m, key, parts))])
  }

  /** The component part of a group's lines. */
  method GroupSccLines(g: GraphModel, partIndices: seq<int>) returns (constraints: seq<string>)
    ensures constraints == SccLines(g, partIndices)
  {
    constraints := [];
    var sccs := Dedup(ComponentIndices(g, partIndices));
    if |sccs| == 1 {
      var scc := g.components[sccs[0]];
      constraints := constraints + [SccPrefix + IntToString(scc.componentId)];
      if scc.hasExternalOutgoing {
        constraints := constraints + [ExternalOutgoingLine];
      }
    }
  }

  /** The loop body of BuildGroupConstraints: the lines of one group, built in turn. */
  method GroupConstraintLines(g: GraphModel, m: MotionModel, groupKey: string, partIndices: seq<int>)
    returns (constraints: seq<string>)
    ensures constraints == GroupLines(g, m, groupKey, partIndices)
  {
    constraints := GroupSccLines(g, partIndices);
    constraints := constraints + [GroupRaysLine(|GetGroupMotionRaysByKey(m, groupKey)|)];
    var externalBlocking := CheckExternalBlocking(partIndices, g);
    if |externalBlocking| > 0 {
      constraints := constraints + [BlockingPrefix + Join(MapSeq(externalBlocking, (n: int) => IntToString(n)), ", ")];
    }
  }

  /**
   * BuildGroupConstraints. The group keys are those of a dictionary, so each
   * key is written once and every write appends an entry.
   */
  method BuildGroupConstraints(g: GraphModel, m: MotionModel) returns (r: Result<seq<(string, seq<string>)>, string>)
    ensures r == GroupEntries(g, m, GetAllGroupKeys(m))
  {
    var keys := GetAllGroupKeys(m);
    var entries := [];
    for i := 0 to |keys|
      invariant GroupEntries(g, m, keys[..i]) == Ok(entries)
    {
      PrefixStep(keys, i);
      var groupKey := keys[i];
      var parsed := ParseGroupKey(groupKey);
      if parsed.Err? {
        PrefixFails(g, m, keys, i + 1);
        return Err(parsed.error);
      }
      var constraints := GroupConstraintLines(g, m, groupKey, parsed.value);
      entries := entries + [(groupKey, constraints)];
    }
    PrefixWhole(keys);
    return Ok(entries);
  }

  /** A failure on a prefix of the keys is the failure of all of them. */
  lemma {:induction false} PrefixFails(g: GraphModel, m: MotionModel, keys: seq<string>, n: nat)
    requires n <= |keys| && GroupEntries(g, m, keys[..n]).Err?
    ensures GroupEntries(g, m, keys) == GroupEntries(g, m, keys[..n])
    decreases |keys| - n
  {
    if n < |keys| {
      PrefixStep(keys, n);
      PrefixFails(g, m, keys, n + 1);
    } else {
      PrefixWhole(keys);
    }
  }

  /** The motion line is always among a group's lines. */
  lemma GroupLinesHaveRays(g: GraphModel, m: MotionModel, key: string, parts: seq<int>)
    ensures GroupRaysLine(|GetGroupMotionRaysByKey(m, key)|) in GroupLines(g, m, key, parts)
  {
    var pre := SccLines(g, parts);
    var rays := GroupRaysLine(|GetGroupMotionRaysByKey(m, key)|);
    assert GroupLines(g, m, key, parts)[|pre|] == rays;
  }

  /** A group's lines open with the component line exactly when its parts lie in one component. */
  lemma GroupLinesOpenWithScc(g: GraphModel, m: MotionModel, key: string, parts: seq<int>)
    ensures var ls := GroupLines(g, m, key, parts);
      StartsWith(ls[0], SccPrefix) <==> |Dedup(ComponentIndices(g, parts))| == 1
  {
    var ls := GroupLines(g, m, key, parts);
    var rays := GroupRaysLine(|GetGroupMotionRaysByKey(m, key)|);
    if |Dedup(ComponentIndices(g, parts))| == 1 {
      var sccs := Dedup(ComponentIndices(g, parts));
      var line := SccPrefix + IntToString(g.components[sccs[0]].componentId);
      assert ls[0] == line;
      assert line[..|SccPrefix|] == SccPrefix;
    } else {
      assert ls[0] == rays;
      assert rays[0] == 'G';
      assert SccPrefix[0] == 'A';
    }
  }

  /** A group's lines close with the blocking line exactly when some outside part blocks it. */
  lemma GroupLinesCloseWithBlocking(g: GraphModel, m: MotionModel, key: string, parts: seq<int>)
    ensures var ls := GroupLines(g, m, key, parts);
      StartsWith(ls[|ls| - 1], BlockingPrefix) <==> exists x :: BlocksGroup(g.directional.edges, parts, x)
  {
    var ls := GroupLines(g, m, key, parts);
    var rays := GroupRaysLine(|GetGroupMotionRaysByKey(m, key)|);
    var blockers := ExternalBlockers(parts, g);
    forall x ensures x in blockers <==> BlocksGroup(g.directional.edges, parts, x) {
      BlockersOfIff(g.directional.edges, parts, x);
    }
    if |blockers| > 0 {
      assert blockers[0] in blockers;
      var line := BlockingPrefix + Join(MapSeq(blockers, (n: int) => IntToString(n)), ", ");
      assert ls[|ls| - 1] == line;
      assert line[..|BlockingPrefix|] == BlockingPrefix;
    } else {
      assert ls[|ls| - 1] == rays;
      assert rays[0] == 'G';
      assert BlockingPrefix[0] == 'E';
    }
  }

  // ---------------------------------------------------------------------
  // BuildConstraints
  // ---------------------------------------------------------------------

  function ConstraintHash(g: GraphModel, m: MotionModel): string
  {
    "constraint_" + g.hash + "_" + m.hash
  }

  /** BuildConstraints: both dictionaries and the combined hash, or the exception of a malformed group key. */
  method BuildConstraints(g: GraphModel, m: MotionModel) returns (r: Result<ConstraintModel, string>)
    ensures r.Err? <==> GroupEntries(g, m, GetAllGroupKeys(m)).Err?
    ensures r.Ok? ==> r.value == ConstraintModel(g, m, PartEntries(g, m, AllParts(g, m)),
      GroupEntries(g, m, GetAllGroupKeys(m)).value, ConstraintHash(g, m))
  {
    var partConstraints := BuildPartConstraints(g, m);
    var groupConstraints := BuildGroupConstraints(g, m);
    if groupConstraints.Err? {
      return Err(groupConstraints.error);
    }
    var hash := "constraint_" + g.hash + "_" + m.hash;
    return Ok(ConstraintModel(g, m, partConstraints, groupConstraints.value, hash));
  }

  /** The built model answers part queries with the builder's lines, and nothing for other parts. */
  lemma BuiltPartConstraints(g: GraphModel, m: MotionModel, c: ConstraintModel, part: int)
    requires c.partConstraints == PartEntries(g, m, AllParts(g, m))
    ensures GetPartConstraints(c, part) == if part in g.directional.nodes || part in m.partRays then PartLines(g, m, part) else []
  {
    PartEntriesFacts(g, m, part);
  }
}
