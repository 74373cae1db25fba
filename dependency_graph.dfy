// The dependency graph of the managed solver fallback: an adjacency dictionary
// from part index to the parts that must come after it, its topological order
// (Kahn's algorithm with the smallest ready index first) and its restriction to
// a subset of parts.
module DependencyGraphs {
  import opened Common
  import IntSets

  /** Dictionary<int, HashSet<int>>: u -> the parts v with an edge u -> v. */
  type Adjacency = map<int, set<int>>

  predicate Edge(adj: Adjacency, u: int, v: int)
  {
    u in adj && v in adj[u]
  }

  function Successors(adj: Adjacency, u: int): set<int>
  {
    if u in adj then adj[u] else {}
  }

  /** The parts some edge points to. */
  function Targets(adj: Adjacency): set<int>
  {
    set u, v | u in adj && v in adj[u] :: v
  }

  /** The nodes of the graph: every key and every edge target. */
  function Nodes(adj: Adjacency): set<int>
  {
    adj.Keys + Targets(adj)
  }

  /** The parts with an edge into v. */
  function Preds(adj: Adjacency, v: int): set<int>
  {
    set u | u in adj && v in adj[u]
  }

  /** Every part with an edge into x occurs in the prefix. */
  ghost predicate PredsIn(adj: Adjacency, prefix: seq<int>, x: int)
  {
    forall u :: Edge(adj, u, x) ==> u in prefix
  }

  /**
   * A topological order: every node exactly once, and every node after all the
   * parts with an edge into it.
   */
  ghost predicate IsTopoOrder(adj: Adjacency, o: seq<int>)
  {
    && Distinct(o)
    && (forall x :: x in o <==> x in Nodes(adj))
    && (forall k :: 0 <= k < |o| ==> PredsIn(adj, o[..k], o[k]))
  }

  ghost predicate HasTopoOrder(adj: Adjacency)
  {
    exists o :: IsTopoOrder(adj, o)
  }

  /** Lexicographic order on integer sequences. */
  predicate LexLeq(a: seq<int>, b: seq<int>)
  {
    a == b
    || (|a| < |b| && a == b[..|a|])
    || exists k :: 0 <= k < |a| && k < |b| && a[..k] == b[..k] && a[k] < b[k]
  }

  /** The lexicographically smallest topological order. */
  ghost predicate IsLeastTopoOrder(adj: Adjacency, o: seq<int>)
  {
    IsTopoOrder(adj, o) && forall p :: IsTopoOrder(adj, p) ==> LexLeq(o, p)
  }

  /** x may be placed after the prefix: a node not yet placed whose predecessors all are. */
  ghost predicate Ready(adj: Adjacency, prefix: seq<int>, x: int)
  {
    x in Nodes(adj) && x !in prefix && PredsIn(adj, prefix, x)
  }

  /** Each element was the smallest ready node at the moment it was placed. */
  ghost predicate Greedy(adj: Adjacency, o: seq<int>)
  {
    forall k :: 0 <= k < |o| ==> forall x :: Ready(adj, o[..k], x) ==> o[k] <= x
  }

  /** What Kahn's loop keeps of the order built so far. */
  ghost predicate Placement(adj: Adjacency, o: seq<int>)
  {
    && Distinct(o)
    && (forall x :: x in o ==> x in Nodes(adj))
    && (forall k :: 0 <= k < |o| ==> PredsIn(adj, o[..k], o[k]))
    && (forall x :: x in o ==> PredsIn(adj, o, x))
    && Greedy(adj, o)
  }

  // ---------------------------------------------------------------------
  // Facts about orders
  // ---------------------------------------------------------------------

  /** In a topological order every edge points forward. */
  lemma TopoEdgesForward(adj: Adjacency, o: seq<int>, i: nat, j: nat)
    requires IsTopoOrder(adj, o)
    requires i < |o| && j < |o| && Edge(adj, o[i], o[j])
    ensures i < j
  {
    assert PredsIn(adj, o[..j], o[j]);
    assert o[i] in o[..j];
    var i' :| 0 <= i' < j && o[..j][i'] == o[i];
    assert o[i'] == o[i];
  }

  /** Placing the smallest ready node keeps the placement invariant. */
  lemma PlacementSnoc(adj: Adjacency, o: seq<int>, next: int)
    requires Placement(adj, o)
    requires Ready(adj, o, next)
    requires forall x :: Ready(adj, o, x) ==> next <= x
    ensures Placement(adj, o + [next])
  {
    var o' := o + [next];
    assert o'[..|o|] == o;
    forall k | 0 <= k < |o| ensures o'[..k] == o[..k] && o'[k] == o[k] {
    }
    forall x | x in o' ensures PredsIn(adj, o', x) {
      if x in o { assert PredsIn(adj, o, x); } else { assert x == next; }
    }
    forall i, j | 0 <= i < j < |o'| ensures o'[i] != o'[j] {
      if j == |o| { assert o'[i] in o; }
    }
    assert Greedy(adj, o') by {
      forall k | 0 <= k < |o'| ensures forall x :: Ready(adj, o'[..k], x) ==> o'[k] <= x {
        if k < |o| {
          assert o'[..k] == o[..k];
        }
      }
    }
  }

  /** A greedy topological order is below every topological order. */
  lemma GreedyIsLeast(adj: Adjacency, o: seq<int>, p: seq<int>)
    requires IsTopoOrder(adj, o) && Greedy(adj, o)
    requires IsTopoOrder(adj, p)
    ensures LexLeq(o, p)
  {
    var k := 0;
    while k < |o| && k < |p| && o[k] == p[k]
      invariant 0 <= k <= |o| && k <= |p|
      invariant o[..k] == p[..k]
    {
      assert o[..k + 1] == o[..k] + [o[k]] && p[..k + 1] == p[..k] + [p[k]];
      k := k + 1;
    }
    TopoOrdersSameLength(adj, o, p);
    if k < |o| && k < |p| {
      assert PredsIn(adj, p[..k], p[k]);
      assert Ready(adj, o[..k], p[k]);
    } else {
      assert o == o[..k] && p == p[..k];
    }
  }

  /** The elements of a sequence. */
  function Elements(a: seq<int>): set<int>
  {
    set x | x in a
  }

  /** A sequence without repetitions has as many elements as its length. */
  lemma {:induction false} DistinctSize(a: seq<int>)
    requires Distinct(a)
    ensures |Elements(a)| == |a|
  {
    if a != [] {
      var init := a[..|a| - 1];
      assert Distinct(init);
      DistinctSize(init);
      assert Elements(a) == Elements(init) + {a[|a| - 1]};
      assert a[|a| - 1] !in Elements(init);
    }
  }

  /** All topological orders of a graph have the same length. */
  lemma TopoOrdersSameLength(adj: Adjacency, o: seq<int>, p: seq<int>)
    requires IsTopoOrder(adj, o) && IsTopoOrder(adj, p)
    ensures |o| == |p|
  {
    DistinctSize(o);
    DistinctSize(p);
    assert Elements(o) == Elements(p);
  }

  /** The smallest topological order, when there is one, is unique. */
  lemma LeastUnique(adj: Adjacency, o: seq<int>, p: seq<int>)
    requires IsLeastTopoOrder(adj, o) && IsLeastTopoOrder(adj, p)
    ensures o == p
  {
    assert LexLeq(o, p) && LexLeq(p, o);
    TopoOrdersSameLength(adj, o, p);
    if o != p {
      var k :| 0 <= k < |o| && k < |p| && o[..k] == p[..k] && o[k] < p[k];
      LexBoth(o, p, k);
    }
  }

  /** If a is below b at index k, b is not at or below a. */
  lemma LexBoth(a: seq<int>, b: seq<int>, k: nat)
    requires k < |a| && k < |b| && a[..k] == b[..k] && a[k] < b[k]
    ensures !LexLeq(b, a)
  {
    assert a[k] != b[k];
    assert |b| < |a| ==> a[..|b|][k] == a[k];
    forall j | 0 <= j < |b| && j < |a|
      ensures b[..j] == a[..j] ==> a[j] <= b[j]
    {
      if j < k {
        assert a[..k][j] == a[j] && b[..k][j] == b[j];
      } else if k < j {
        assert a[..j][k] == a[k] && b[..j][k] == b[k];
      }
    }
  }

  /**
   * When no node is ready but some node is unplaced, there is no topological
   * order: its first unplaced node would be ready.
   */
  lemma NoTopoOrder(adj: Adjacency, o: seq<int>)
    requires forall x :: x in o ==> x in Nodes(adj)
    requires forall x :: !Ready(adj, o, x)
    requires exists x :: x in Nodes(adj) && x !in o
    ensures !HasTopoOrder(adj)
  {
    if p :| IsTopoOrder(adj, p) {
      var x :| x in Nodes(adj) && x !in o;
      assert x in p;
      var k := 0;
      while p[k] in o
        invariant 0 <= k < |p|
        invariant forall j :: 0 <= j < k ==> p[j] in o
        decreases |p| - k
      {
        k := k + 1;
        if k == |p| {
          var i :| 0 <= i < |p| && p[i] == x;
          assert false;
        }
      }
      FirstUnplacedReady(adj, o, p, k);
      assert false;
    }
  }

  /** The first node of a topological order that is not in o is ready after o. */
  lemma FirstUnplacedReady(adj: Adjacency, o: seq<int>, p: seq<int>, k: nat)
    requires IsTopoOrder(adj, p)
    requires k < |p| && p[k] !in o
    requires forall j :: 0 <= j < k ==> p[j] in o
    ensures Ready(adj, o, p[k])
  {
    assert PredsIn(adj, p[..k], p[k]);
    forall u | Edge(adj, u, p[k]) ensures u in o {
      assert u in p[..k];
      var j :| 0 <= j < k && p[..k][j] == u;
      assert p[j] == u;
    }
  }

  /** The nodes ready after a prefix. */
  ghost function ReadySet(adj: Adjacency, o: seq<int>): (r: set<int>)
    ensures forall x :: x in r <==> Ready(adj, o, x)
  {
    set x | x in Nodes(adj) && Ready(adj, o, x)
  }

  /** Repeatedly placing the smallest ready node reaches the smallest topological order. */
  lemma LeastExists(adj: Adjacency)
    requires HasTopoOrder(adj)
    ensures exists o :: IsLeastTopoOrder(adj, o)
  {
    var o: seq<int> := [];
    ghost var placed: set<int> := {};
    while ReadySet(adj, o) != {}
      invariant Placement(adj, o)
      invariant forall x :: x in placed <==> x in o
      decreases |Nodes(adj) - placed|
    {
      var next := IntSets.MinOf(ReadySet(adj, o));
      GreedyTurn(adj, o, placed, next);
      o := o + [next];
      placed := placed + {next};
    }
    GreedyStopIsLeast(adj, o);
  }

  /** Placing the smallest ready node keeps a greedy placement and leaves one node fewer to place. */
  lemma GreedyTurn(adj: Adjacency, o: seq<int>, placed: set<int>, next: int)
    requires Placement(adj, o)
    requires forall x :: x in placed <==> x in o
    requires Ready(adj, o, next) && forall x :: Ready(adj, o, x) ==> next <= x
    ensures Placement(adj, o + [next])
    ensures forall x :: x in placed + {next} <==> x in o + [next]
    ensures |Nodes(adj) - (placed + {next})| < |Nodes(adj) - placed|
  {
    PlacementSnoc(adj, o, next);
    assert Nodes(adj) - (placed + {next}) < Nodes(adj) - placed;
  }

  /** A greedy placement with nothing left ready is the smallest topological order, when there is one. */
  lemma GreedyStopIsLeast(adj: Adjacency, o: seq<int>)
    requires HasTopoOrder(adj)
    requires Placement(adj, o) && ReadySet(adj, o) == {}
    ensures IsLeastTopoOrder(adj, o)
  {
    if exists x :: x in Nodes(adj) && x !in o {
      NoTopoOrder(adj, o);
    }
    forall p | IsTopoOrder(adj, p) ensures LexLeq(o, p) {
      GreedyIsLeast(adj, o, p);
    }
  }

  /** The order ResolveOrder computes for an acyclic graph. */
  ghost function LeastTopoOrder(adj: Adjacency): (o: seq<int>)
    requires HasTopoOrder(adj)
    ensures IsLeastTopoOrder(adj, o)
  {
    LeastExists(adj);
    var o :| IsLeastTopoOrder(adj, o); o
  }

  // ---------------------------------------------------------------------
  // ResolveOrder: in-degrees, then Kahn's loop
  // ---------------------------------------------------------------------

  /** indegree.TryGetValue with 0 for a missing entry. */
  function Get(m: map<int, int>, v: int): int
  {
    if v in m then m[v] else 0
  }

  /** The number of parts of s with an edge into v. */
  ghost function InCount(adj: Adjacency, s: set<int>, v: int): nat
    decreases |s|
  {
    if s == {} then 0
    else
      IntSets.HasElement(s);
      var u :| u in s;
      (if Edge(adj, u, v) then 1 else 0) + InCount(adj, s - {u}, v)
  }

  /** The count does not depend on which part is taken first. */
  lemma {:induction false} InCountAny(adj: Adjacency, s: set<int>, u: int, v: int)
    requires u in s
    ensures InCount(adj, s, v) == (if Edge(adj, u, v) then 1 else 0) + InCount(adj, s - {u}, v)
    decreases |s|
  {
    var w :| w in s && InCount(adj, s, v) == (if Edge(adj, w, v) then 1 else 0) + InCount(adj, s - {w}, v);
    if w != u {
      InCountAny(adj, s - {w}, u, v);
      InCountAny(adj, s - {u}, w, v);
      assert s - {w} - {u} == s - {u} - {w};
    }
  }

  lemma InCountAdd(adj: Adjacency, s: set<int>, u: int, v: int)
    requires u !in s
    ensures InCount(adj, s + {u}, v) == InCount(adj, s, v) + (if Edge(adj, u, v) then 1 else 0)
  {
    InCountAny(adj, s + {u}, u, v);
    assert s + {u} - {u} == s;
  }

  /** The count is the size of the set of parts of s with an edge into v. */
  lemma {:induction false} InCountIsSize(adj: Adjacency, s: set<int>, v: int)
    ensures InCount(adj, s, v) == |Preds(adj, v) * s|
    decreases |s|
  {
    if s != {} {
      IntSets.HasElement(s);
      var u :| u in s;
      InCountAny(adj, s, u, v);
      InCountIsSize(adj, s - {u}, v);
      if Edge(adj, u, v) {
        assert Preds(adj, v) * s == Preds(adj, v) * (s - {u}) + {u};
      } else {
        assert Preds(adj, v) * s == Preds(adj, v) * (s - {u});
      }
    }
  }

  /** The count is zero exactly when no part of s has an edge into v. */
  lemma {:induction false} InCountZero(adj: Adjacency, s: set<int>, v: int)
    ensures InCount(adj, s, v) == 0 <==> forall u :: u in s ==> !Edge(adj, u, v)
    decreases |s|
  {
    if s != {} {
      IntSets.HasElement(s);
      var u :| u in s;
      InCountAny(adj, s, u, v);
      InCountZero(adj, s - {u}, v);
    }
  }

  /** The targets of the edges leaving `done`. */
  function TargetsOf(adj: Adjacency, done: set<int>): set<int>
  {
    set u, v | u in done && u in adj && v in adj[u] :: v
  }

  lemma TargetsOfAdd(adj: Adjacency, done: set<int>, node: int)
    requires node in adj
    ensures TargetsOf(adj, done + {node}) == TargetsOf(adj, done) + adj[node]
  {
    forall v | v in TargetsOf(adj, done + {node}) ensures v in TargetsOf(adj, done) + adj[node] {
      var u :| u in done + {node} && u in adj && v in adj[u];
      if u != node { assert v in TargetsOf(adj, done); }
    }
    forall v | v in adj[node] ensures v in TargetsOf(adj, done + {node}) {
      assert node in done + {node};
    }
  }

  lemma TargetsOfAll(adj: Adjacency)
    ensures TargetsOf(adj, adj.Keys) == Targets(adj)
  {
  }

  /** Every entry of the table counts the edges from `done` into its node. */
  ghost predicate Counts(adj: Adjacency, done: set<int>, indeg: map<int, int>)
  {
    forall v :: Get(indeg, v) == InCount(adj, done, v)
  }

  /**
   * The in-degree table of ResolveOrder: every key and target gets an entry,
   * which counts the neighbour sets that hold the node.
   */
  method InDegrees(adj: Adjacency) returns (indeg: map<int, int>)
    ensures indeg.Keys == Nodes(adj)
    ensures forall v :: v in indeg ==> indeg[v] == InCount(adj, adj.Keys, v)
  {
    indeg := map[];
    var keys := adj.Keys;
    while keys != {}
      invariant keys <= adj.Keys
      invariant indeg.Keys == (adj.Keys - keys) + TargetsOf(adj, adj.Keys - keys)
      invariant Counts(adj, adj.Keys - keys, indeg)
      decreases |keys|
    {
      IntSets.HasElement(keys);
      var node :| node in keys;
      ghost var before := indeg;
      indeg := CountNeighbours(node, adj[node], indeg);
      TargetsOfAdd(adj, adj.Keys - keys, node);
      CountsAfter(adj, adj.Keys - keys, node, before, indeg);
      assert adj.Keys - (keys - {node}) == (adj.Keys - keys) + {node};
      keys := keys - {node};
    }
    assert adj.Keys - keys == adj.Keys;
    TargetsOfAll(adj);
  }

  /** The table counts, for every node, the parts with an edge into it. */
  lemma InDegreesArePredCounts(adj: Adjacency, indeg: map<int, int>)
    requires indeg.Keys == Nodes(adj)
    requires forall v :: v in indeg ==> indeg[v] == InCount(adj, adj.Keys, v)
    ensures forall v :: v in indeg ==> indeg[v] == |Preds(adj, v)|
  {
    forall v | v in indeg ensures indeg[v] == |Preds(adj, v)| {
      InCountAllKeys(adj, v);
    }
  }

  lemma InCountAllKeys(adj: Adjacency, v: int)
    ensures InCount(adj, adj.Keys, v) == |Preds(adj, v)|
  {
    InCountIsSize(adj, adj.Keys, v);
    assert Preds(adj, v) * adj.Keys == Preds(adj, v);
  }

  /** One pass of the outer loop: an entry for the node, and one more for each neighbour. */
  method CountNeighbours(node: int, neighbours: set<int>, indeg0: map<int, int>) returns (indeg: map<int, int>)
    ensures indeg.Keys == indeg0.Keys + {node} + neighbours
    ensures forall v :: Get(indeg, v) == Get(indeg0, v) + (if v in neighbours then 1 else 0)
  {
    indeg := indeg0;
    if node !in indeg {
      indeg := indeg[node := 0];
    }
    var rest := neighbours;
    while rest != {}
      invariant rest <= neighbours
      invariant indeg.Keys == indeg0.Keys + {node} + (neighbours - rest)
      invariant forall v :: Get(indeg, v) == Get(indeg0, v) + (if v in neighbours && v !in rest then 1 else 0)
      decreases |rest|
    {
      IntSets.HasElement(rest);
      var neighbour :| neighbour in rest;
      indeg := Increment(indeg, neighbour);
      rest := rest - {neighbour};
    }
  }

  /** indegree.TryAdd(v, 0); indegree[v]++. */
  method Increment(indeg0: map<int, int>, v: int) returns (indeg: map<int, int>)
    ensures indeg.Keys == indeg0.Keys + {v}
    ensures forall w :: Get(indeg, w) == Get(indeg0, w) + (if w == v then 1 else 0)
  {
    indeg := indeg0;
    if v !in indeg {
      indeg := indeg[v := 0];
    }
    indeg := indeg[v := indeg[v] + 1];
  }

  lemma CountsAfter(adj: Adjacency, done: set<int>, node: int, before: map<int, int>, indeg: map<int, int>)
    requires node in adj && node !in done
    requires Counts(adj, done, before)
    requires forall v :: Get(indeg, v) == Get(before, v) + (if v in adj[node] then 1 else 0)
    ensures Counts(adj, done + {node}, indeg)
  {
    forall v ensures Get(indeg, v) == InCount(adj, done + {node}, v) {
      InCountAdd(adj, done, node, v);
    }
  }

  /** What the Kahn loop keeps between iterations. */
  ghost predicate KahnState(adj: Adjacency, indeg: map<int, int>, available: set<int>, order: seq<int>, placed: set<int>)
  {
    && Placement(adj, order)
    && placed <= Nodes(adj) && |placed| == |order|
    && (forall x :: x in placed <==> x in order)
    && indeg.Keys == Nodes(adj)
    && (forall v :: v in indeg ==> indeg[v] == InCount(adj, adj.Keys - placed, v))
    && (forall x :: x in available <==> Ready(adj, order, x))
  }

  /** A node has no unplaced predecessor exactly when all its predecessors are placed. */
  lemma PendingZero(adj: Adjacency, order: seq<int>, placed: set<int>, v: int)
    requires forall x :: x in placed <==> x in order
    ensures InCount(adj, adj.Keys - placed, v) == 0 <==> PredsIn(adj, order, v)
  {
    InCountZero(adj, adj.Keys - placed, v);
    if InCount(adj, adj.Keys - placed, v) == 0 {
      forall u | Edge(adj, u, v) ensures u in order {
        assert u !in adj.Keys - placed;
      }
    }
  }

  /** The nodes whose in-degree is zero are the nodes ready at the start. */
  lemma KahnInit(adj: Adjacency, indeg: map<int, int>, available: set<int>)
    requires indeg.Keys == Nodes(adj)
    requires forall v :: v in indeg ==> indeg[v] == InCount(adj, adj.Keys, v)
    requires forall x :: x in available <==> x in indeg && indeg[x] == 0
    ensures KahnState(adj, indeg, available, [], {})
  {
    assert adj.Keys - {} == adj.Keys;
    forall x ensures x in available <==> Ready(adj, [], x) {
      PendingZero(adj, [], {}, x);
    }
  }

  /**
   * Kahn's loop of ResolveOrder: take the smallest available node, place it, and
   * release every neighbour whose count drops to zero. It stops with no node ready.
   */
  method Kahn(adj: Adjacency, indeg0: map<int, int>) returns (order: seq<int>)
    requires indeg0.Keys == Nodes(adj)
    requires forall v :: v in indeg0 ==> indeg0[v] == InCount(adj, adj.Keys, v)
    ensures Placement(adj, order)
    ensures forall x :: !Ready(adj, order, x)
    ensures |order| == |indeg0| <==> forall x :: x in Nodes(adj) ==> x in order
  {
    var indeg := indeg0;
    var available: set<int> := set v | v in indeg0 && indeg0[v] == 0;
    order := [];
    ghost var placed: set<int> := {};
    KahnInit(adj, indeg0, available);
    while available != {}
      invariant KahnState(adj, indeg, available, order, placed)
      decreases |Nodes(adj) - placed|
    {
      indeg, available, order, placed := KahnTurn(adj, indeg, available, order, placed);
    }
    KahnDone(adj, indeg0, indeg, order, placed);
  }

  /** One turn of Kahn's loop: place the smallest available node and release its neighbours. */
  method KahnTurn(adj: Adjacency, indeg0: map<int, int>, available0: set<int>, order0: seq<int>, ghost placed0: set<int>)
    returns (indeg: map<int, int>, available: set<int>, order: seq<int>, ghost placed: set<int>)
    requires available0 != {}
    requires KahnState(adj, indeg0, available0, order0, placed0)
    ensures KahnState(adj, indeg, available, order, placed)
    ensures order == order0 + [IntSets.MinOf(available0)]
    ensures |Nodes(adj) - placed| < |Nodes(adj) - placed0|
  {
    var next := IntSets.MinOf(available0);
    SuccessorsAreNodes(adj, next);
    indeg, available := Release(adj, next, indeg0, available0 - {next});
    KahnStep(adj, indeg0, available0, order0, placed0, next, indeg, available);
    order := order0 + [next];
    placed := placed0 + {next};
  }

  lemma SuccessorsAreNodes(adj: Adjacency, u: int)
    ensures Successors(adj, u) <= Nodes(adj)
  {
    forall v | v in Successors(adj, u) ensures v in Targets(adj) {
      assert Edge(adj, u, v);
    }
  }

  /** When nothing is available, the order is complete exactly when its length is the node count. */
  lemma KahnDone(adj: Adjacency, indeg0: map<int, int>, indeg: map<int, int>, order: seq<int>, placed: set<int>)
    requires indeg0.Keys == Nodes(adj)
    requires KahnState(adj, indeg, {}, order, placed)
    ensures forall x :: !Ready(adj, order, x)
    ensures |order| == |indeg0| <==> forall x :: x in Nodes(adj) ==> x in order
  {
    if forall x :: x in Nodes(adj) ==> x in order {
      assert placed == Nodes(adj);
    } else {
      var x :| x in Nodes(adj) && x !in order;
      assert Nodes(adj) == placed + (Nodes(adj) - placed) && x in Nodes(adj) - placed;
      assert |placed| < |Nodes(adj)|;
      assert |Nodes(adj)| == |indeg0|;
    }
  }

  /** One turn of Kahn's loop keeps its invariant and places one more node. */
  lemma KahnStep(adj: Adjacency, indeg0: map<int, int>, available0: set<int>, order: seq<int>, placed: set<int>,
                 next: int, indeg: map<int, int>, available: set<int>)
    requires KahnState(adj, indeg0, available0, order, placed)
    requires next in available0 && forall x :: x in available0 ==> next <= x
    requires indeg.Keys == indeg0.Keys
    requires forall v :: Get(indeg, v) == Get(indeg0, v) - (if v in Successors(adj, next) then 1 else 0)
    requires forall x :: x in available <==>
               (x in available0 && x != next) || (x in Successors(adj, next) && Get(indeg, x) == 0)
    ensures KahnState(adj, indeg, available, order + [next], placed + {next})
    ensures |Nodes(adj) - (placed + {next})| < |Nodes(adj) - placed|
  {
    PlacementSnoc(adj, order, next);
    assert Nodes(adj) - (placed + {next}) < Nodes(adj) - placed;
    KahnStepCounts(adj, indeg0, placed, next, indeg);
    KahnStepAvailable(adj, indeg, available0, order, placed, next, available);
  }

  lemma KahnStepCounts(adj: Adjacency, indeg0: map<int, int>, placed: set<int>, next: int, indeg: map<int, int>)
    requires next !in placed
    requires forall v :: v in indeg0 ==> indeg0[v] == InCount(adj, adj.Keys - placed, v)
    requires indeg.Keys == indeg0.Keys
    requires forall v :: Get(indeg, v) == Get(indeg0, v) - (if v in Successors(adj, next) then 1 else 0)
    ensures forall v :: v in indeg ==> indeg[v] == InCount(adj, adj.Keys - (placed + {next}), v)
  {
    forall v | v in indeg ensures indeg[v] == InCount(adj, adj.Keys - (placed + {next}), v) {
      assert Get(indeg, v) == indeg[v] && Get(indeg0, v) == indeg0[v];
      if next in adj {
        InCountAny(adj, adj.Keys - placed, next, v);
        assert (adj.Keys - placed) - {next} == adj.Keys - (placed + {next});
      } else {
        assert adj.Keys - placed == adj.Keys - (placed + {next});
      }
    }
  }

  lemma KahnStepAvailable(adj: Adjacency, indeg: map<int, int>, available0: set<int>, order: seq<int>, placed: set<int>,
                          next: int, available: set<int>)
    requires Placement(adj, order) && Placement(adj, order + [next])
    requires forall x :: x in placed <==> x in order
    requires forall x :: x in available0 <==> Ready(adj, order, x)
    requires next in available0
    requires indeg.Keys == Nodes(adj)
    requires forall v :: v in indeg ==> indeg[v] == InCount(adj, adj.Keys - (placed + {next}), v)
    requires forall x :: x in available <==>
               (x in available0 && x != next) || (x in Successors(adj, next) && Get(indeg, x) == 0)
    ensures forall x :: x in available <==> Ready(adj, order + [next], x)
  {
    var order' := order + [next];
    forall x ensures x in available <==> Ready(adj, order', x) {
      if x in Successors(adj, next) {
        assert Edge(adj, next, x);
        assert x in Nodes(adj);
        PendingZero(adj, order', placed + {next}, x);
      } else {
        forall u | Edge(adj, u, x) && u in order' ensures u in order {
        }
      }
    }
  }

  /**
   * The inner loop of Kahn's algorithm: decrement the count of each neighbour of
   * the node just placed, and make it available when the count reaches zero.
   */
  method Release(adj: Adjacency, next: int, indeg0: map<int, int>, available0: set<int>)
    returns (indeg: map<int, int>, available: set<int>)
    requires Successors(adj, next) <= indeg0.Keys
    ensures indeg.Keys == indeg0.Keys
    ensures forall v :: Get(indeg, v) == Get(indeg0, v) - (if v in Successors(adj, next) then 1 else 0)
    ensures forall x :: x in available <==>
              (x in available0) || (x in Successors(adj, next) && Get(indeg, x) == 0)
  {
    indeg := indeg0;
    available := available0;
    var neighbours := Successors(adj, next);
    var rest := neighbours;
    while rest != {}
      invariant rest <= neighbours
      invariant indeg.Keys == indeg0.Keys
      invariant forall v :: Get(indeg, v) == Get(indeg0, v) - (if v in neighbours && v !in rest then 1 else 0)
      invariant forall x :: x in available <==>
                  (x in available0) || (x in neighbours && x !in rest && Get(indeg, x) == 0)
      decreases |rest|
    {
      IntSets.HasElement(rest);
      var neighbour :| neighbour in rest;
      indeg := indeg[neighbour := indeg[neighbour] - 1];
      if indeg[neighbour] == 0 {
        available := available + {neighbour};
      }
      rest := rest - {neighbour};
    }
  }

  /**
   * ResolveOrder without its validations: the smallest topological order, or
   * nothing when the placed count falls short of the node count (a cycle).
   */
  method TopologicalOrder(adj: Adjacency) returns (r: Option<seq<int>>)
    ensures r.Some? <==> HasTopoOrder(adj)
    ensures r.Some? ==> r.value == LeastTopoOrder(adj)
  {
    var indeg := InDegrees(adj);
    var order := Kahn(adj, indeg);
    if |order| != |indeg| {
      var x :| x in Nodes(adj) && x !in order;
      NoTopoOrder(adj, order);
      return None;
    }
    assert IsTopoOrder(adj, order);
    forall p | IsTopoOrder(adj, p) ensures LexLeq(order, p) {
      GreedyIsLeast(adj, order, p);
    }
    LeastUnique(adj, order, LeastTopoOrder(adj));
    return Some(order);
  }

  // ---------------------------------------------------------------------
  // Filter and the sum of the neighbour counts
  // ---------------------------------------------------------------------

  /** The subgraph on a subset: the keys in the subset, each with its neighbours in the subset. */
  function Filtered(adj: Adjacency, subset: set<int>): Adjacency
  {
    map u | u in adj.Keys * subset :: adj[u] * subset
  }

  /** Filter(subset). */
  method Filter(adj: Adjacency, subset: set<int>) returns (filtered: Adjacency)
    ensures filtered == Filtered(adj, subset)
  {
    filtered := map[];
    var keys := adj.Keys;
    while keys != {}
      invariant keys <= adj.Keys
      invariant filtered.Keys == (adj.Keys - keys) * subset
      invariant forall u :: u in filtered ==> filtered[u] == adj[u] * subset
      decreases |keys|
    {
      IntSets.HasElement(keys);
      var node :| node in keys;
      if node in subset {
        filtered := filtered[node := adj[node] * subset];
      }
      keys := keys - {node};
    }
    assert adj.Keys - keys == adj.Keys;
    forall u | u in filtered ensures u in Filtered(adj, subset) && filtered[u] == Filtered(adj, subset)[u] {
    }
    assert filtered.Keys == Filtered(adj, subset).Keys;
  }

  /** Every edge of the subgraph joins two parts of the subset and is an edge of the graph, and conversely. */
  lemma FilterEdges(adj: Adjacency, subset: set<int>, u: int, v: int)
    ensures Edge(Filtered(adj, subset), u, v) <==> Edge(adj, u, v) && u in subset && v in subset
    ensures Nodes(Filtered(adj, subset)) <= subset
  {
    var filtered := Filtered(adj, subset);
    forall x | x in Nodes(filtered) ensures x in subset {
      if x !in filtered.Keys {
        var w :| w in filtered && x in filtered[w];
      }
    }
  }

  /** The sum of the neighbour-set sizes over some keys. */
  ghost function SumSizes(adj: Adjacency, keys: set<int>): nat
    requires keys <= adj.Keys
    decreases |keys|
  {
    if keys == {} then 0
    else
      IntSets.HasElement(keys);
      var k :| k in keys;
      |adj[k]| + SumSizes(adj, keys - {k})
  }

  /** The sum does not depend on which key is taken first. */
  lemma {:induction false} SumSizesAny(adj: Adjacency, keys: set<int>, k: int)
    requires keys <= adj.Keys && k in keys
    ensures SumSizes(adj, keys) == |adj[k]| + SumSizes(adj, keys - {k})
    decreases |keys|
  {
    var j :| j in keys && SumSizes(adj, keys) == |adj[j]| + SumSizes(adj, keys - {j});
    if j != k {
      SumSizesAny(adj, keys - {j}, k);
      SumSizesAny(adj, keys - {k}, j);
      assert keys - {j} - {k} == keys - {k} - {j};
    }
  }

  /** AppliedConstraintCount: _adjacency.Sum(pair => pair.Value.Count). */
  method EdgeCount(adj: Adjacency) returns (total: int)
    ensures total == SumSizes(adj, adj.Keys)
  {
    total := 0;
    var keys := adj.Keys;
    while keys != {}
      invariant keys <= adj.Keys
      invariant total + SumSizes(adj, keys) == SumSizes(adj, adj.Keys)
      decreases |keys|
    {
      IntSets.HasElement(keys);
      var node :| node in keys;
      SumSizesAny(adj, keys, node);
      total := total + |adj[node]|;
      keys := keys - {node};
    }
  }
}
