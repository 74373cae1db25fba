// The read-only graph model of the planner: blocking graphs, in-degrees and
// strongly connected components.
module PlanningGraph {
  import opened Common

  datatype BlockingEdge = BlockingEdge(from: int, to: int)

  datatype BlockingGraph = BlockingGraph(nodes: seq<int>, edges: seq<BlockingEdge>)

  /**
   * The members of a component, as the HashSet<int> that holds them lists them:
   * each member once, in the order it was first added (the set is never
   * removed from, so its enumeration order is its insertion order).
   */
  type MemberList = s: seq<int> | Distinct(s)

  datatype Component = Component(componentId: int, members: MemberList, hasExternalOutgoing: bool)

  /**
   * The StronglyConnectedComponent constructor: the members are copied into a
   * new HashSet, which keeps the first occurrence of each, in order; a null
   * member list leaves the initial empty set.
   */
  function NewComponent(componentId: int, members: Option<seq<int>>, hasExternalOutgoing: bool): (r: Component)
    ensures r.componentId == componentId && r.hasExternalOutgoing == hasExternalOutgoing
    ensures members.None? ==> r.members == []
    ensures members.Some? ==> forall x :: x in r.members <==> x in members.value
    ensures members.Some? && Distinct(members.value) ==> r.members == members.value
  {
    if members.None? then Component(componentId, [], hasExternalOutgoing)
    else
      DedupKeepsDistinct(members.value);
      Component(componentId, Dedup(members.value), hasExternalOutgoing)
  }

  lemma DedupKeepsDistinct(xs: seq<int>)
    ensures Distinct(xs) ==> Dedup(xs) == xs
  {
    if Distinct(xs) {
      DedupDistinct(xs);
    }
  }

  /** Repeated members are dropped, keeping the first: the order is that of first addition. */
  lemma NewComponentSnoc(componentId: int, members: seq<int>, x: int, hasExternalOutgoing: bool)
    ensures NewComponent(componentId, Some(members + [x]), hasExternalOutgoing).members ==
      var before := NewComponent(componentId, Some(members), hasExternalOutgoing).members;
      if x in before then before else before + [x]
  {
    DedupSnoc(members, x);
  }

  /**
   * InDegrees is a dictionary, kept as its entries in enumeration order; the
   * non-directional blocking graph has no content and is left out.
   */
  datatype GraphModel = GraphModel(
    directional: BlockingGraph,
    inDegrees: seq<(int, int)>,
    components: seq<Component>,
    allBlockingEdges: seq<BlockingEdge>,
    hash: string)

  /** Each node has at most one in-degree entry. */
  predicate ValidGraphModel(g: GraphModel)
  {
    forall i, j :: 0 <= i < j < |g.inDegrees| ==> g.inDegrees[i].0 != g.inDegrees[j].0
  }

  /**
   * The constructor. The non-directional graph, which carries nothing, is only
   * checked for null. The result names the first null argument.
   */
  function NewGraphModel(directional: Option<BlockingGraph>, nonDirectional: Option<()>,
                         inDegrees: Option<seq<(int, int)>>, components: Option<seq<Component>>,
                         allBlockingEdges: Option<seq<BlockingEdge>>, hash: Option<string>): (r: Result<GraphModel, string>)
    ensures r.Ok? <==> directional.Some? && nonDirectional.Some? && inDegrees.Some? && components.Some?
                       && allBlockingEdges.Some? && hash.Some?
    ensures r.Ok? ==> r.value == GraphModel(directional.value, inDegrees.value, components.value,
                                            allBlockingEdges.value, hash.value)
    ensures directional.None? ==> r == Err("directionalBlockingGraph")
    ensures directional.Some? && nonDirectional.None? ==> r == Err("nonDirectionalBlockingGraph")
  {
    if directional.None? then Err("directionalBlockingGraph")
    else if nonDirectional.None? then Err("nonDirectionalBlockingGraph")
    else if inDegrees.None? then Err("inDegrees")
    else if components.None? then Err("stronglyConnectedComponents")
    else if allBlockingEdges.None? then Err("allBlockingEdges")
    else if hash.None? then Err("hash")
    else Ok(GraphModel(directional.value, inDegrees.value, components.value, allBlockingEdges.value, hash.value))
  }

  function NodeCount(g: GraphModel): nat { |g.directional.nodes| }

  function EdgeCount(g: GraphModel): nat { |g.directional.edges| }

  function ComponentCount(g: GraphModel): nat { |g.components| }

  predicate HasInDegree(g: GraphModel, node: int)
  {
    exists i :: 0 <= i < |g.inDegrees| && g.inDegrees[i].0 == node
  }

  /** GetInDegree: the stored in-degree, and 0 for a node without an entry. */
  function GetInDegree(g: GraphModel, node: int): (d: int)
    ensures !HasInDegree(g, node) ==> d == 0
    ensures ValidGraphModel(g) ==> forall i :: 0 <= i < |g.inDegrees| && g.inDegrees[i].0 == node ==> d == g.inDegrees[i].1
  {
    InDegreeIn(g.inDegrees, node)
  }

  function InDegreeIn(entries: seq<(int, int)>, node: int): (d: int)
    ensures (forall i :: 0 <= i < |entries| ==> entries[i].0 != node) ==> d == 0
    ensures (forall i, j :: 0 <= i < j < |entries| ==> entries[i].0 != entries[j].0) ==>
              forall i :: 0 <= i < |entries| && entries[i].0 == node ==> d == entries[i].1
  {
    if entries == [] then 0
    else if entries[0].0 == node then entries[0].1
    else
      assert forall i :: 1 <= i < |entries| ==> entries[1..][i - 1] == entries[i];
      InDegreeIn(entries[1..], node)
  }

  /** GetFreeParts: the nodes whose in-degree entry is 0, in enumeration order. */
  function GetFreeParts(g: GraphModel): seq<int>
  {
    FreeIn(g.inDegrees)
  }

  function FreeIn(entries: seq<(int, int)>): seq<int>
  {
    if entries == [] then []
    else (if entries[0].1 == 0 then [entries[0].0] else []) + FreeIn(entries[1..])
  }

  /**
   * A node is free exactly when it has an entry equal to 0: a node missing from
   * InDegrees is not free, although GetInDegree reports 0 for it.
   */
  lemma {:induction false} FreePartsIff(g: GraphModel, node: int)
    requires ValidGraphModel(g)
    ensures node in GetFreeParts(g) <==> HasInDegree(g, node) && GetInDegree(g, node) == 0
  {
    FreeInIff(g.inDegrees, node);
  }

  lemma {:induction false} FreeInIff(entries: seq<(int, int)>, node: int)
    ensures node in FreeIn(entries) <==> exists i :: 0 <= i < |entries| && entries[i] == (node, 0)
  {
    if entries != [] {
      FreeInIff(entries[1..], node);
      if exists i :: 0 <= i < |entries[1..]| && entries[1..][i] == (node, 0) {
        var i :| 0 <= i < |entries[1..]| && entries[1..][i] == (node, 0);
        assert entries[i + 1] == (node, 0);
      }
      if exists i :: 0 <= i < |entries| && entries[i] == (node, 0) {
        var i :| 0 <= i < |entries| && entries[i] == (node, 0);
        if i > 0 { assert entries[1..][i - 1] == (node, 0); }
      }
    }
  }

  /** GetComponentForNode: the first component holding the node, or null. */
  function GetComponentForNode(g: GraphModel, node: int): (r: Option<Component>)
    ensures r.None? <==> forall i :: 0 <= i < |g.components| ==> node !in g.components[i].members
    ensures r.Some? ==> exists i :: 0 <= i < |g.components| && g.components[i] == r.value
                          && node in r.value.members
                          && forall j :: 0 <= j < i ==> node !in g.components[j].members
  {
    FirstComponentFacts(g.components, node);
    FirstComponent(g.components, node)
  }

  function FirstComponent(cs: seq<Component>, node: int): Option<Component>
  {
    if cs == [] then None
    else if node in cs[0].members then Some(cs[0])
    else FirstComponent(cs[1..], node)
  }

  lemma {:induction false} FirstComponentFacts(cs: seq<Component>, node: int)
    ensures FirstComponent(cs, node).None? <==> forall i :: 0 <= i < |cs| ==> node !in cs[i].members
    ensures FirstComponent(cs, node).Some? ==>
              exists i :: 0 <= i < |cs| && cs[i] == FirstComponent(cs, node).value && node in cs[i].members
                          && forall j :: 0 <= j < i ==> node !in cs[j].members
  {
    if cs != [] && node !in cs[0].members {
      var r := FirstComponent(cs[1..], node);
      FirstComponentFacts(cs[1..], node);
      assert forall i :: 1 <= i < |cs| ==> cs[1..][i - 1] == cs[i];
      if r.Some? {
        var i :| 0 <= i < |cs[1..]| && cs[1..][i] == r.value && node in cs[1..][i].members
                 && forall j :: 0 <= j < i ==> node !in cs[1..][j].members;
        assert cs[i + 1] == r.value;
        forall j | 0 <= j < i + 1 ensures node !in cs[j].members {
          if j > 0 { assert cs[1..][j - 1] == cs[j]; }
        }
      }
    }
  }

  /** AreInSameComponent: both nodes have a component, and the two component ids agree. */
  predicate AreInSameComponent(g: GraphModel, a: int, b: int)
  {
    var ca := GetComponentForNode(g, a);
    var cb := GetComponentForNode(g, b);
    ca.Some? && cb.Some? && ca.value.componentId == cb.value.componentId
  }

  /** A node outside every component is in the same component as nothing, not even itself. */
  lemma NoComponentNoPartner(g: GraphModel, a: int, b: int)
    requires forall i :: 0 <= i < |g.components| ==> a !in g.components[i].members
    ensures !AreInSameComponent(g, a, b) && !AreInSameComponent(g, b, a)
  {
  }

  /** Sharing a component is symmetric. */
  lemma SameComponentSymmetric(g: GraphModel, a: int, b: int)
    ensures AreInSameComponent(g, a, b) == AreInSameComponent(g, b, a)
  {
  }
}
