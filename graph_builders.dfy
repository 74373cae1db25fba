// The adjacency graph built from joints, the non-directional blocking graph
// built from direction cones, and the directed blocking graph that orients
// each cone from its first part to its second.
module Graphs {
  import opened Common
  import opened DomainModel

  /** A direction cone between two parts; only the part pair shapes the graphs. */
  datatype DirectionCone = DirectionCone(partA: string, partB: string, axis: Vector3d, angleRadians: real)

  datatype Graph = Graph(adjacency: map<string, set<string>>)

  datatype DirectedGraph = DirectedGraph(adjacency: map<string, set<string>>)

  /** Graph.Neighbours: the stored neighbours, or none for a node the graph does not hold. */
  function Neighbours(g: Graph, node: string): (r: set<string>)
    ensures node in g.adjacency ==> r == g.adjacency[node]
    ensures node !in g.adjacency ==> r == {}
  {
    if node in g.adjacency then g.adjacency[node] else {}
  }

  /** DirectedGraph.Successors: the stored successors, or none for a node the graph does not hold. */
  function Successors(g: DirectedGraph, node: string): (r: set<string>)
    ensures node in g.adjacency ==> r == g.adjacency[node]
    ensures node !in g.adjacency ==> r == {}
  {
    if node in g.adjacency then g.adjacency[node] else {}
  }

  function KeyNotFoundMessage(key: string): string
  {
    "The given key '" + key + "' was not present in the dictionary."
  }

  function Ids(parts: seq<Part>): (r: seq<string>)
    ensures |r| == |parts| && forall i :: 0 <= i < |parts| ==> r[i] == parts[i].id
  {
    seq(|parts|, i requires 0 <= i < |parts| => parts[i].id)
  }

  function JointPairs(joints: seq<Joint>): (r: seq<(string, string)>)
    ensures |r| == |joints| && forall i :: 0 <= i < |joints| ==> r[i] == (joints[i].partA, joints[i].partB)
  {
    seq(|joints|, i requires 0 <= i < |joints| => (joints[i].partA, joints[i].partB))
  }

  function ConePairs(cones: seq<DirectionCone>): (r: seq<(string, string)>)
    ensures |r| == |cones| && forall i :: 0 <= i < |cones| ==> r[i] == (cones[i].partA, cones[i].partB)
  {
    seq(|cones|, i requires 0 <= i < |cones| => (cones[i].partA, cones[i].partB))
  }

  // ---------------------------------------------------------------------
  // The pre-keyed adjacency
  // ---------------------------------------------------------------------

  /**
   * Parts.ToImmutableDictionary(p => p.Id, _ => new HashSet<string>()): every id
   * maps to its own new set, so any repeated id is rejected.
   */
  function EmptyAdjacency(ids: seq<string>): (r: Result<map<string, set<string>>, Exception>)
    ensures r.Ok? <==> Distinct(ids)
    ensures r.Err? ==> r.error.ArgumentException?
    ensures r.Ok? ==> (forall u :: u in r.value <==> u in ids) && forall u :: u in r.value ==> r.value[u] == {}
    decreases |ids|
  {
    if ids == [] then Ok(map[])
    else
      var init := ids[..|ids| - 1];
      var last := ids[|ids| - 1];
      assert forall i :: 0 <= i < |init| ==> init[i] == ids[i];
      assert forall u :: u in ids <==> u in init || u == last;
      match EmptyAdjacency(init)
      case Err(e) =>
        assert !Distinct(ids) by {
          var i, j :| 0 <= i < j < |init| && init[i] == init[j];
        }
        Err(e)
      case Ok(m) =>
        if last in m then
          var i :| 0 <= i < |init| && init[i] == last;
          assert ids[i] == ids[|ids| - 1];
          Err(ArgumentException(DuplicateKeyMessage(last)))
        else
          assert Distinct(ids) by {
            forall i, j | 0 <= i < j < |ids| ensures ids[i] != ids[j] {
              if j == |ids| - 1 {
                assert ids[i] in init;
              }
            }
          }
          Ok(m[last := {}])
  }

  // ---------------------------------------------------------------------
  // Undirected edges
  // ---------------------------------------------------------------------

  /**
   * The foreach over joints or cones: for each pair, look up the first part and
   * add the second, then look up the second and add the first. An unknown
   * part aborts with KeyNotFoundException.
   */
  function AddPairs(adj: map<string, set<string>>, pairs: seq<(string, string)>)
    : Result<map<string, set<string>>, Exception>
    decreases |pairs|
  {
    if pairs == [] then Ok(adj)
    else
      var (a, b) := pairs[0];
      if a !in adj then Err(KeyNotFoundException(KeyNotFoundMessage(a)))
      else
        var adj1 := adj[a := adj[a] + {b}];
        if b !in adj1 then Err(KeyNotFoundException(KeyNotFoundMessage(b)))
        else AddPairs(adj1[b := adj1[b] + {a}], pairs[1..])
  }

  function Members(ids: seq<string>): set<string>
  {
    set u | u in ids
  }

  /** Both endpoints of every pair are keys. */
  predicate Known(keys: set<string>, pairs: seq<(string, string)>)
  {
    forall k :: 0 <= k < |pairs| ==> pairs[k].0 in keys && pairs[k].1 in keys
  }

  /** Some pair joins u and v, in either order. */
  ghost predicate Linked(pairs: seq<(string, string)>, u: string, v: string)
  {
    exists k :: 0 <= k < |pairs| && (pairs[k] == (u, v) || pairs[k] == (v, u))
  }

  /** The pairs are all added exactly when each names known parts; the keys never change. */
  lemma {:induction false} AddPairsOk(adj: map<string, set<string>>, pairs: seq<(string, string)>)
    ensures AddPairs(adj, pairs).Ok? <==> Known(adj.Keys, pairs)
    ensures AddPairs(adj, pairs).Ok? ==> AddPairs(adj, pairs).value.Keys == adj.Keys
    ensures AddPairs(adj, pairs).Err? ==> AddPairs(adj, pairs).error.KeyNotFoundException?
    decreases |pairs|
  {
    if pairs != [] {
      var (a, b) := pairs[0];
      if a in adj && b in adj {
        var next := adj[a := adj[a] + {b}][b := adj[a := adj[a] + {b}][b] + {a}];
        assert next.Keys == adj.Keys;
        AddPairsOk(next, pairs[1..]);
        assert Known(adj.Keys, pairs) <==> Known(adj.Keys, pairs[1..]) by {
          assert forall k :: 1 <= k < |pairs| ==> pairs[1..][k - 1] == pairs[k];
        }
      }
    }
  }

  /** After the pairs are added, v neighbours u exactly when it did before or a pair links them. */
  lemma {:induction false} AddPairsEdges(adj: map<string, set<string>>, pairs: seq<(string, string)>, u: string, v: string)
    requires AddPairs(adj, pairs).Ok? && u in adj
    ensures u in AddPairs(adj, pairs).value
    ensures v in AddPairs(adj, pairs).value[u] <==> v in adj[u] || Linked(pairs, u, v)
    decreases |pairs|
  {
    AddPairsOk(adj, pairs);
    if pairs != [] {
      var (a, b) := pairs[0];
      var next := adj[a := adj[a] + {b}][b := adj[a := adj[a] + {b}][b] + {a}];
      assert v in next[u] <==> v in adj[u] || pairs[0] == (u, v) || pairs[0] == (v, u);
      AddPairsEdges(next, pairs[1..], u, v);
      assert Linked(pairs, u, v) <==> pairs[0] == (u, v) || pairs[0] == (v, u) || Linked(pairs[1..], u, v) by {
        if Linked(pairs, u, v) && !(pairs[0] == (u, v) || pairs[0] == (v, u)) {
          var k :| 0 <= k < |pairs| && (pairs[k] == (u, v) || pairs[k] == (v, u));
          assert pairs[1..][k - 1] == pairs[k];
        }
        if Linked(pairs[1..], u, v) {
          var k :| 0 <= k < |pairs[1..]| && (pairs[1..][k] == (u, v) || pairs[1..][k] == (v, u));
          assert pairs[k + 1] == pairs[1..][k];
        }
      }
    }
  }

  /** The loop over the pairs, adding both directions of each. */
  method AddEdges(adj0: map<string, set<string>>, pairs: seq<(string, string)>)
    returns (r: Result<map<string, set<string>>, Exception>)
    ensures r == AddPairs(adj0, pairs)
  {
    var adj := adj0;
    for k := 0 to |pairs|
      invariant AddPairs(adj, pairs[k..]) == AddPairs(adj0, pairs)
    {
      var (a, b) := pairs[k];
      assert pairs[k..][1..] == pairs[k + 1..];
      if a !in adj {
        return Err(KeyNotFoundException(KeyNotFoundMessage(a)));
      }
      adj := adj[a := adj[a] + {b}];
      if b !in adj {
        return Err(KeyNotFoundException(KeyNotFoundMessage(b)));
      }
      adj := adj[b := adj[b] + {a}];
    }
    assert pairs[|pairs|..] == [];
    return Ok(adj);
  }

  /** What an undirected graph built over the part ids from the pairs holds. */
  ghost predicate UndirectedOver(g: Graph, ids: seq<string>, pairs: seq<(string, string)>)
  {
    && (forall u :: u in g.adjacency <==> u in ids)
    && (forall u, v :: u in g.adjacency ==> (v in g.adjacency[u] <==> Linked(pairs, u, v)))
  }

  /** The adjacency keyed by the part ids, with both directions of every pair. */
  method BuildSymmetric(parts: seq<Part>, pairs: seq<(string, string)>) returns (r: Result<Graph, Exception>)
    ensures r.Ok? <==> Distinct(Ids(parts)) && Known(Members(Ids(parts)), pairs)
    ensures r.Err? && !Distinct(Ids(parts)) ==> r.error.ArgumentException?
    ensures r.Err? && Distinct(Ids(parts)) ==> r.error.KeyNotFoundException?
    ensures r.Ok? ==> UndirectedOver(r.value, Ids(parts), pairs)
  {
    var empty := EmptyAdjacency(Ids(parts));
    if empty.Err? {
      return Err(empty.error);
    }
    var adj0 := empty.value;
    assert adj0.Keys == Members(Ids(parts));
    var edges := AddEdges(adj0, pairs);
    AddPairsOk(adj0, pairs);
    if edges.Err? {
      return Err(edges.error);
    }
    forall u, v | u in edges.value
      ensures v in edges.value[u] <==> Linked(pairs, u, v)
    {
      AddPairsEdges(adj0, pairs, u, v);
    }
    return Ok(Graph(edges.value));
  }

  /** In a graph built from pairs, v neighbours u exactly when u neighbours v. */
  lemma UndirectedSymmetric(g: Graph, ids: seq<string>, pairs: seq<(string, string)>, u: string, v: string)
    requires UndirectedOver(g, ids, pairs) && Known(Members(ids), pairs)
    ensures v in Neighbours(g, u) <==> u in Neighbours(g, v)
  {
    if v in Neighbours(g, u) || u in Neighbours(g, v) {
      var k :| 0 <= k < |pairs| && (pairs[k] == (u, v) || pairs[k] == (v, u));
      assert pairs[k].0 in ids && pairs[k].1 in ids;
    }
  }

  /** AdjacencyGraphBuilder.Build. */
  method BuildAdjacencyGraph(assembly: Option<Assembly>) returns (r: Result<Graph, Exception>)
    ensures assembly.None? ==> r == Err(ArgumentNullException("assembly"))
    ensures assembly.Some? ==>
      var a := assembly.value;
      && (r.Ok? <==> Distinct(Ids(a.parts)) && Known(Members(Ids(a.parts)), JointPairs(a.joints)))
      && (r.Ok? ==> UndirectedOver(r.value, Ids(a.parts), JointPairs(a.joints)))
  {
    if assembly.None? {
      return Err(ArgumentNullException("assembly"));
    }
    r := BuildSymmetric(assembly.value.parts, JointPairs(assembly.value.joints));
  }

  /** NonDirectionalBlockingGraphBuilder.Build. */
  method BuildNonDirectionalGraph(assembly: Option<Assembly>, cones: Option<seq<DirectionCone>>)
    returns (r: Result<Graph, Exception>)
    ensures assembly.None? ==> r == Err(ArgumentNullException("assembly"))
    ensures assembly.Some? && cones.None? ==> r == Err(ArgumentNullException("cones"))
    ensures assembly.Some? && cones.Some? ==>
      var a := assembly.value;
      && (r.Ok? <==> Distinct(Ids(a.parts)) && Known(Members(Ids(a.parts)), ConePairs(cones.value)))
      && (r.Ok? ==> UndirectedOver(r.value, Ids(a.parts), ConePairs(cones.value)))
  {
    if assembly.None? {
      return Err(ArgumentNullException("assembly"));
    }
    if cones.None? {
      return Err(ArgumentNullException("cones"));
    }
    r := BuildSymmetric(assembly.value.parts, ConePairs(cones.value));
  }

  // ---------------------------------------------------------------------
  // Directed edges
  // ---------------------------------------------------------------------

  /** The foreach over cones: get or create the set of the first part and add the second. */
  function Orient(adj: map<string, set<string>>, pairs: seq<(string, string)>): map<string, set<string>>
    decreases |pairs|
  {
    if pairs == [] then adj
    else
      var (a, b) := pairs[0];
      var listA := if a in adj then adj[a] else {};
      Orient(adj[a := listA + {b}], pairs[1..])
  }

  ghost predicate Directs(pairs: seq<(string, string)>, u: string, v: string)
  {
    exists k :: 0 <= k < |pairs| && pairs[k] == (u, v)
  }

  ghost predicate Source(pairs: seq<(string, string)>, u: string)
  {
    exists k :: 0 <= k < |pairs| && pairs[k].0 == u
  }

  /** Orienting keeps the old entries and adds each pair as an edge from its first part. */
  lemma {:induction false} OrientEdges(adj: map<string, set<string>>, pairs: seq<(string, string)>, u: string, v: string)
    ensures u in Orient(adj, pairs) <==> u in adj || Source(pairs, u)
    ensures u in Orient(adj, pairs) ==>
      (v in Orient(adj, pairs)[u] <==> (u in adj && v in adj[u]) || Directs(pairs, u, v))
    decreases |pairs|
  {
    if pairs != [] {
      var (a, b) := pairs[0];
      var listA := if a in adj then adj[a] else {};
      OrientEdges(adj[a := listA + {b}], pairs[1..], u, v);
      assert Source(pairs, u) <==> pairs[0].0 == u || Source(pairs[1..], u) by {
        if Source(pairs, u) && pairs[0].0 != u {
          var k :| 0 <= k < |pairs| && pairs[k].0 == u;
          assert pairs[1..][k - 1] == pairs[k];
        }
        if Source(pairs[1..], u) {
          var k :| 0 <= k < |pairs[1..]| && pairs[1..][k].0 == u;
          assert pairs[k + 1] == pairs[1..][k];
        }
      }
      assert Directs(pairs, u, v) <==> pairs[0] == (u, v) || Directs(pairs[1..], u, v) by {
        if Directs(pairs, u, v) && pairs[0] != (u, v) {
          var k :| 0 <= k < |pairs| && pairs[k] == (u, v);
          assert pairs[1..][k - 1] == pairs[k];
        }
        if Directs(pairs[1..], u, v) {
          var k :| 0 <= k < |pairs[1..]| && pairs[1..][k] == (u, v);
          assert pairs[k + 1] == pairs[1..][k];
        }
      }
    }
  }

  /** DirectedBlockingGraphBuilder.Build. */
  method BuildDirectedGraph(cones: Option<seq<DirectionCone>>) returns (r: Result<DirectedGraph, Exception>)
    ensures cones.None? ==> r == Err(ArgumentNullException("cones"))
    ensures r.Ok? <==> cones.Some?
    ensures r.Ok? ==> r.value.adjacency == Orient(map[], ConePairs(cones.value))
    ensures r.Ok? ==> forall u :: u in r.value.adjacency <==> Source(ConePairs(cones.value), u)
    ensures r.Ok? ==> forall u, v :: u in r.value.adjacency ==>
      (v in Successors(r.value, u) <==> Directs(ConePairs(cones.value), u, v))
  {
    if cones.None? {
      return Err(ArgumentNullException("cones"));
    }
    var pairs := ConePairs(cones.value);
    var adj: map<string, set<string>> := map[];
    for k := 0 to |pairs|
      invariant Orient(adj, pairs[k..]) == Orient(map[], pairs)
    {
      var (a, b) := pairs[k];
      assert pairs[k..][1..] == pairs[k + 1..];
      var listA: set<string>;
      if a in adj {
        listA := adj[a];
      } else {
        listA := {};
      }
      adj := adj[a := listA + {b}];
    }
    assert pairs[|pairs|..] == [];
    forall u
      ensures u in adj <==> Source(pairs, u)
    {
      OrientEdges(map[], pairs, u, u);
    }
    forall u, v | u in adj
      ensures v in adj[u] <==> Directs(pairs, u, v)
    {
      OrientEdges(map[], pairs, u, v);
    }
    return Ok(DirectedGraph(adj));
  }
}
