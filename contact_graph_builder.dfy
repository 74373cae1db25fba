// The contact graph builder: the placeholder graph model built from a contact
// model. Its nodes are the part indices the contacts name; it has no edges, so
// every in-degree is zero and every part is a component of its own.
module ContactGraphs {
  import opened Common
  import opened PlanningGraph
  import opened ContactModels

  /** The two switches of GraphOptions that the builder reads (only for the hash). */
  datatype GraphOptions = GraphOptions(useDirected: bool, onlyBlocking: bool)

  // ---------------------------------------------------------------------
  // Nodes
  // ---------------------------------------------------------------------

  /** The part indices one contact adds to the node set: A's if it parses, then B's if it parses. */
  function IdsOf(c: ContactData): seq<int>
  {
    var a := TryParsePartIndex(c.partAId);
    var b := TryParsePartIndex(c.partBId);
    (if a.0 then [a.1] else []) + (if b.0 then [b.1] else [])
  }

  /** One of the contact's part names parses to the part; the other need not. */
  predicate Mentions(c: ContactData, x: int)
  {
    TryParsePartIndex(c.partAId) == (true, x) || TryParsePartIndex(c.partBId) == (true, x)
  }

  /** Every Add the loop makes, in order. */
  function ParsedIds(cs: seq<ContactData>): seq<int>
  {
    if cs == [] then [] else ParsedIds(cs[..|cs| - 1]) + IdsOf(cs[|cs| - 1])
  }

  /** The node set: a HashSet filled by Add, enumerated in insertion order. */
  function NodesOf(cs: seq<ContactData>): (r: seq<int>)
    ensures Distinct(r)
  {
    Dedup(ParsedIds(cs))
  }

  /** Some contact mentions the part. */
  ghost predicate MentionedIn(cs: seq<ContactData>, x: int)
  {
    ExistsIn(cs, (c: ContactData) => Mentions(c, x))
  }

  lemma {:induction false} ParsedIdsIff(cs: seq<ContactData>, x: int)
    ensures x in ParsedIds(cs) <==> MentionedIn(cs, x)
  {
    if cs != [] {
      ParsedIdsIff(cs[..|cs| - 1], x);
      ExistsInSnoc(cs, (c: ContactData) => Mentions(c, x));
      var c := cs[|cs| - 1];
      assert x in IdsOf(c) <==> Mentions(c, x);
    }
  }

  /** A node is exactly a part index that some contact's A or B name parses to. */
  lemma NodesIff(cs: seq<ContactData>, x: int)
    ensures x in NodesOf(cs) <==> MentionedIn(cs, x)
  {
    ParsedIdsIff(cs, x);
  }

  /** Every part of the neighbour map is a node, since a contact that names both parts mentions each. */
  lemma NeighbourPartsAreNodes(cs: seq<ContactData>, u: int)
    requires u in NeighbourMapOf(cs)
    ensures u in NodesOf(cs)
  {
    NeighbourMapKeys(cs, u);
    var i :| 0 <= i < |cs| && Names(cs[i], u);
    assert Mentions(cs[i], u);
    NodesIff(cs, u);
  }

  /** A contact whose A name parses and whose B name does not adds a node but no neighbour entry. */
  lemma HalfNamedContact(c: ContactData)
    requires TryParsePartIndex(c.partAId).0 && !TryParsePartIndex(c.partBId).0
    ensures NodesOf([c]) == [TryParsePartIndex(c.partAId).1]
    ensures NeighbourMapOf([c]) == map[]
  {
    var cs := [c];
    assert cs[..0] == [];
    assert ParsedIds(cs) == IdsOf(c);
  }

  /** HashSet.Add: the part is appended unless it is already there. */
  method AddNode(nodeSet: seq<int>, ghost added: seq<int>, x: int) returns (r: seq<int>)
    requires nodeSet == Dedup(added)
    ensures r == Dedup(added + [x])
  {
    DedupSnoc(added, x);
    r := nodeSet;
    if x !in nodeSet {
      r := nodeSet + [x];
    }
  }

  /** The first loop of BuildGraph: HashSet.Add of every parsable id, a repeated id changing nothing. */
  method CollectNodes(contacts: seq<ContactData>) returns (nodeSet: seq<int>)
    ensures nodeSet == NodesOf(contacts)
  {
    nodeSet := [];
    for i := 0 to |contacts|
      invariant nodeSet == Dedup(ParsedIds(contacts[..i]))
    {
      PrefixStep(contacts, i);
      nodeSet := AddContactNodes(nodeSet, ParsedIds(contacts[..i]), contacts[i]);
    }
    PrefixWhole(contacts);
  }

  /** One contact: its A id, then its B id, each added when it parses. */
  method AddContactNodes(nodeSet: seq<int>, ghost before: seq<int>, c: ContactData) returns (r: seq<int>)
    requires nodeSet == Dedup(before)
    ensures r == Dedup(before + IdsOf(c))
  {
    var a := TryParsePartIndex(c.partAId);
    var b := TryParsePartIndex(c.partBId);
    ghost var pa := if a.0 then [a.1] else [];
    ghost var pb := if b.0 then [b.1] else [];
    assert IdsOf(c) == pa + pb;
    AppendAssoc(before, pa, pb);
    r := nodeSet;
    if a.0 {
      r := AddNode(r, before, a.1);
    } else {
      assert before + pa == before;
    }
    if b.0 {
      r := AddNode(r, before + pa, b.1);
    } else {
      assert (before + pa) + pb == before + pa;
    }
  }

  // ---------------------------------------------------------------------
  // CalculateInDegrees
  // ---------------------------------------------------------------------

  /** The number of edges into the node. */
  function EdgesInto(edges: seq<BlockingEdge>, node: int): nat
  {
    if edges == [] then 0
    else EdgesInto(edges[..|edges| - 1], node) + (if edges[|edges| - 1].to == node then 1 else 0)
  }

  /** A node has in-degree zero exactly when no edge ends at it. */
  lemma {:induction false} EdgesIntoZero(edges: seq<BlockingEdge>, node: int)
    ensures EdgesInto(edges, node) == 0 <==> forall i :: 0 <= i < |edges| ==> edges[i].to != node
  {
    if edges != [] {
      var init := edges[..|edges| - 1];
      EdgesIntoZero(init, node);
      assert forall i :: 0 <= i < |init| ==> init[i] == edges[i];
    }
  }

  /** The in-degree dictionary: every node once, in order, with the number of edges ending at it. */
  function InDegreesOf(graph: BlockingGraph): (r: seq<(int, int)>)
    ensures |r| == |Dedup(graph.nodes)|
    ensures forall i :: 0 <= i < |r| ==> r[i] == (Dedup(graph.nodes)[i], EdgesInto(graph.edges, Dedup(graph.nodes)[i]))
  {
    MapSeq(Dedup(graph.nodes), (n: int) => (n, EdgesInto(graph.edges, n)))
  }

  /** ContainsKey: the position of the key among the entries, or -1. */
  method FindKey(entries: seq<(int, int)>, key: int) returns (j: int)
    ensures -1 <= j < |entries|
    ensures j == -1 <==> !HasKey(entries, key)
    ensures j >= 0 ==> entries[j].0 == key
  {
    j := 0;
    while j < |entries|
      invariant 0 <= j <= |entries|
      invariant forall k :: 0 <= k < j ==> entries[k].0 != key
    {
      if entries[j].0 == key {
        return;
      }
      j := j + 1;
    }
    j := -1;
  }

  /** The first loop of CalculateInDegrees: inDegrees[node] = 0 for every node. */
  method ZeroInDegrees(nodes: seq<int>) returns (inDegrees: seq<(int, int)>)
    ensures |inDegrees| == |Dedup(nodes)|
    ensures forall k :: 0 <= k < |inDegrees| ==> inDegrees[k] == (Dedup(nodes)[k], 0)
  {
    inDegrees := [];
    for i := 0 to |nodes|
      invariant |inDegrees| == |Dedup(nodes[..i])|
      invariant forall k :: 0 <= k < |inDegrees| ==> inDegrees[k] == (Dedup(nodes[..i])[k], 0)
    {
      PrefixStep(nodes, i);
      inDegrees := ZeroNode(inDegrees, nodes[..i], nodes[i]);
    }
    PrefixWhole(nodes);
  }

  /** One node of the first loop: a new key is appended with 0, a present one is set to 0 again. */
  method ZeroNode(inDegrees: seq<(int, int)>, ghost before: seq<int>, node: int) returns (r: seq<(int, int)>)
    requires |inDegrees| == |Dedup(before)|
    requires forall k :: 0 <= k < |inDegrees| ==> inDegrees[k] == (Dedup(before)[k], 0)
    ensures |r| == |Dedup(before + [node])|
    ensures forall k :: 0 <= k < |r| ==> r[k] == (Dedup(before + [node])[k], 0)
  {
    DedupSnoc(before, node);
    var j := FindKey(inDegrees, node);
    if j == -1 {
      forall k | 0 <= k < |Dedup(before)| ensures Dedup(before)[k] != node {
        assert inDegrees[k].0 == Dedup(before)[k];
      }
      r := inDegrees + [(node, 0)];
    } else {
      assert Dedup(before)[j] == node;
      r := inDegrees[j := (node, 0)];
    }
  }

  /** One edge of the second loop: the entry of its target, if it is a key, goes up by one. */
  method CountEdge(inDegrees: seq<(int, int)>, ghost keys: seq<int>, ghost edges: seq<BlockingEdge>, edge: BlockingEdge)
    returns (r: seq<(int, int)>)
    requires Distinct(keys) && |inDegrees| == |keys|
    requires forall k :: 0 <= k < |inDegrees| ==> inDegrees[k] == (keys[k], EdgesInto(edges, keys[k]))
    ensures |r| == |keys|
    ensures forall k :: 0 <= k < |r| ==> r[k] == (keys[k], EdgesInto(edges + [edge], keys[k]))
  {
    assert (edges + [edge])[..|edges|] == edges;
    var j := FindKey(inDegrees, edge.to);
    r := inDegrees;
    if j != -1 {
      r := inDegrees[j := (edge.to, inDegrees[j].1 + 1)];
    }
    forall k | 0 <= k < |r|
      ensures r[k] == (keys[k], EdgesInto(edges + [edge], keys[k]))
    {
      if k != j {
        assert inDegrees[k].0 == keys[k];
        assert keys[k] != edge.to;
      }
    }
  }

  /**
   * CalculateInDegrees. The first loop writes 0 for every node (a repeated
   * node keeps its place); the second increments the entry of each edge's
   * target, and ignores edges into parts that are not nodes.
   */
  method CalculateInDegrees(graph: BlockingGraph) returns (inDegrees: seq<(int, int)>)
    ensures inDegrees == InDegreesOf(graph)
  {
    inDegrees := ZeroInDegrees(graph.nodes);
    var keys := Dedup(graph.nodes);
    var edges := graph.edges;
    for i := 0 to |edges|
      invariant |inDegrees| == |keys|
      invariant forall k :: 0 <= k < |inDegrees| ==> inDegrees[k] == (keys[k], EdgesInto(edges[..i], keys[k]))
    {
      PrefixStep(edges, i);
      inDegrees := CountEdge(inDegrees, keys, edges[..i], edges[i]);
    }
    PrefixWhole(edges);
  }

  /** The in-degree dictionary has each node as a key once, and only the nodes, with its edge count. */
  lemma InDegreesFacts(graph: BlockingGraph, g: GraphModel, node: int)
    requires g.inDegrees == InDegreesOf(graph)
    ensures ValidGraphModel(g)
    ensures HasInDegree(g, node) <==> node in graph.nodes
    ensures GetInDegree(g, node) == if node in graph.nodes then EdgesInto(graph.edges, node) else 0
  {
    var keys := Dedup(graph.nodes);
    if node in graph.nodes {
      var i :| 0 <= i < |keys| && keys[i] == node;
      assert g.inDegrees[i].0 == node;
    }
  }

  // ---------------------------------------------------------------------
  // FindStronglyConnectedComponents
  // ---------------------------------------------------------------------

  /** edges.Any(e => e.From == node). */
  function AnyFrom(edges: seq<BlockingEdge>, node: int): (r: bool)
    ensures r <==> exists i :: 0 <= i < |edges| && edges[i].from == node
  {
    if edges == [] then false
    else
      var init := edges[..|edges| - 1];
      assert forall i :: 0 <= i < |init| ==> init[i] == edges[i];
      AnyFrom(init, node) || edges[|edges| - 1].from == node
  }

  /** The component of one node: itself alone, with an outgoing edge if any edge leaves it. */
  function SingletonOf(graph: BlockingGraph, node: int): Component
  {
    Component(node, [node], AnyFrom(graph.edges, node))
  }

  /** The components: one per node, in node order. */
  function ComponentsOf(graph: BlockingGraph): (r: seq<Component>)
    ensures |r| == |graph.nodes|
    ensures forall i :: 0 <= i < |r| ==> r[i] == SingletonOf(graph, graph.nodes[i])
  {
    MapSeq(graph.nodes, (n: int) => SingletonOf(graph, n))
  }

  /** FindStronglyConnectedComponents. */
  method FindStronglyConnectedComponents(graph: BlockingGraph) returns (components: seq<Component>)
    ensures components == ComponentsOf(graph)
  {
    components := [];
    for i := 0 to |graph.nodes|
      invariant |components| == i
      invariant forall k :: 0 <= k < i ==> components[k] == SingletonOf(graph, graph.nodes[k])
    {
      var node := graph.nodes[i];
      var scc := Component(node, [node], AnyFrom(graph.edges, node));
      components := components + [scc];
    }
  }

  /** A node's component is its own singleton; a part that is no node has none. */
  lemma ComponentOfNode(graph: BlockingGraph, g: GraphModel, node: int)
    requires g.components == ComponentsOf(graph)
    ensures GetComponentForNode(g, node) == if node in graph.nodes then Some(SingletonOf(graph, node)) else None
  {
    var r := GetComponentForNode(g, node);
    if node in graph.nodes {
      var i :| 0 <= i < |graph.nodes| && graph.nodes[i] == node;
      assert node in g.components[i].members;
      var k :| 0 <= k < |g.components| && g.components[k] == r.value && node in r.value.members;
      assert g.components[k].members == [graph.nodes[k]];
    } else {
      forall i | 0 <= i < |g.components| ensures node !in g.components[i].members {
        assert g.components[i].members == [graph.nodes[i]];
      }
    }
  }

  // ---------------------------------------------------------------------
  // BuildGraph
  // ---------------------------------------------------------------------

  /** How C# renders a bool in an interpolated string. */
  function BoolText(b: bool): string
  {
    if b then "True" else "False"
  }

  function GraphHash(contactsHash: string, options: GraphOptions): string
  {
    "graph_" + contactsHash + "_" + OptionsText(options)
  }

  /** The part of the hash after the contact model's hash. */
  function OptionsText(options: GraphOptions): string
  {
    BoolText(options.useDirected) + "_" + BoolText(options.onlyBlocking)
  }

  lemma OptionsTextInjective(o1: GraphOptions, o2: GraphOptions)
    requires OptionsText(o1) == OptionsText(o2)
    ensures o1 == o2
  {
    var s1 := OptionsText(o1);
    assert s1[0] == BoolText(o1.useDirected)[0];
    assert s1[0] == BoolText(o2.useDirected)[0];
    assert o1.useDirected == o2.useDirected;
    assert |s1| == |BoolText(o1.useDirected)| + 1 + |BoolText(o1.onlyBlocking)|;
    assert |s1| == |BoolText(o2.useDirected)| + 1 + |BoolText(o2.onlyBlocking)|;
  }

  /** The hash tells the options apart: two option sets give the same hash of one contact model only if equal. */
  lemma GraphHashSeparatesOptions(h: string, o1: GraphOptions, o2: GraphOptions)
    requires GraphHash(h, o1) == GraphHash(h, o2)
    ensures o1 == o2
  {
    PrefixCancel("graph_" + h + "_", OptionsText(o1), OptionsText(o2));
    OptionsTextInjective(o1, o2);
  }

  /** The graph BuildGraph's directional graph is: the contact nodes and no edges. */
  function PlaceholderGraph(contacts: ContactModel): BlockingGraph
  {
    BlockingGraph(NodesOf(contacts.contacts), [])
  }

  /** BuildGraph. */
  method BuildGraph(contacts: ContactModel, options: GraphOptions) returns (g: GraphModel)
    ensures var graph := PlaceholderGraph(contacts);
      g == GraphModel(graph, InDegreesOf(graph), ComponentsOf(graph), [], GraphHash(contacts.hash, options))
  {
    var nodeSet := CollectNodes(contacts.contacts);
    var directionalGraph := BlockingGraph(nodeSet, []);
    var inDegrees := CalculateInDegrees(directionalGraph);
    var sccs := FindStronglyConnectedComponents(directionalGraph);
    var allBlockingEdges := directionalGraph.edges;
    var hash := GraphHash(contacts.hash, options);
    g := GraphModel(directionalGraph, inDegrees, sccs, allBlockingEdges, hash);
  }

  /**
   * What the placeholder graph promises: its nodes are the mentioned parts,
   * each with in-degree zero and a component of its own without outgoing
   * edges; other parts have neither.
   */
  lemma PlaceholderGraphFacts(contacts: ContactModel, g: GraphModel, part: int)
    requires var graph := PlaceholderGraph(contacts);
      g.directional == graph && g.inDegrees == InDegreesOf(graph) && g.components == ComponentsOf(graph)
    ensures ValidGraphModel(g)
    ensures part in g.directional.nodes <==> MentionedIn(contacts.contacts, part)
    ensures GetInDegree(g, part) == 0
    ensures HasInDegree(g, part) <==> MentionedIn(contacts.contacts, part)
    ensures GetComponentForNode(g, part) ==
      if MentionedIn(contacts.contacts, part) then Some(Component(part, [part], false)) else None
  {
    var graph := PlaceholderGraph(contacts);
    NodesIff(contacts.contacts, part);
    InDegreesFacts(graph, g, part);
    ComponentOfNode(graph, g, part);
  }
}
