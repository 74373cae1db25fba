// Group candidates for joint removal: the strongly connected components of
// the graph model (whole when small enough, else their subgroups), then the
// parts with in-degree zero; a heuristic score per group and the ranking of
// the candidates by that score.
module GroupCandidates {
  import opened Common
  import opened IntSets
  import opened PlanningGraph
  import opened Combinations

  function Min(a: int, b: int): int
  {
    if a < b then a else b
  }

  // ---------------------------------------------------------------------
  // GenerateSubgroups
  // ---------------------------------------------------------------------

  /** The combinations of every size from size down to 2, larger sizes first. */
  function SubgroupsFrom(members: seq<int>, size: int): seq<seq<int>>
    decreases size
  {
    if size < 2 then [] else CombinationsOf(members, size) + SubgroupsFrom(members, size - 1)
  }

  function Subgroups(members: seq<int>, maxSize: int): seq<seq<int>>
  {
    SubgroupsFrom(members, Min(maxSize, |members|))
  }

  /** GenerateSubgroups: the for loop over sizes, yielding every combination of each size. */
  method GenerateSubgroups(members: seq<int>, maxSize: int) returns (r: seq<seq<int>>)
    ensures r == Subgroups(members, maxSize)
  {
    r := [];
    var size := Min(maxSize, |members|);
    while size >= 2
      invariant r + SubgroupsFrom(members, size) == Subgroups(members, maxSize)
      decreases size
    {
      var combinations := GenerateCombinations(members, size);
      AppendAssoc(r, combinations, SubgroupsFrom(members, size - 1));
      r := r + combinations;
      size := size - 1;
    }
  }

  /** Every combination of the given size picks size items of the list. */
  lemma CombinationShape(members: seq<int>, size: int, i: nat)
    requires i < |CombinationsOf(members, size)|
    ensures |CombinationsOf(members, size)[i]| == size
    ensures forall x :: x in CombinationsOf(members, size)[i] ==> x in members
  {
    CombinationsFacts(members, size, i, 0);
    var cs := CombosFrom(0, |members|, size);
    var g := CombinationsOf(members, size)[i];
    assert g == Pick(members, cs[i]);
    forall x | x in g ensures x in members {
      var q :| 0 <= q < |g| && g[q] == x;
      assert g[q] == members[cs[i][q]];
    }
  }

  /** Each subgroup has between 2 and size members, all taken from the list. */
  lemma {:induction false} SubgroupsFromShape(members: seq<int>, size: int, i: nat)
    requires i < |SubgroupsFrom(members, size)|
    ensures 2 <= |SubgroupsFrom(members, size)[i]| <= size
    ensures forall x :: x in SubgroupsFrom(members, size)[i] ==> x in members
    decreases size
  {
    var c := CombinationsOf(members, size);
    if i < |c| {
      CombinationShape(members, size, i);
    } else {
      SubgroupsFromShape(members, size - 1, i - |c|);
    }
  }

  /** Larger subgroups come first. */
  lemma {:induction false} SubgroupsFromOrder(members: seq<int>, size: int, i: nat, j: nat)
    requires i < j < |SubgroupsFrom(members, size)|
    ensures |SubgroupsFrom(members, size)[i]| >= |SubgroupsFrom(members, size)[j]|
    decreases size
  {
    var c := CombinationsOf(members, size);
    var r := SubgroupsFrom(members, size);
    if j < |c| {
      CombinationShape(members, size, i);
      CombinationShape(members, size, j);
    } else if i < |c| {
      CombinationShape(members, size, i);
      SubgroupsFromShape(members, size - 1, j - |c|);
    } else {
      SubgroupsFromOrder(members, size - 1, i - |c|, j - |c|);
    }
  }

  // ---------------------------------------------------------------------
  // GenerateCandidates
  // ---------------------------------------------------------------------

  /**
   * The candidates of one component: its members whole when there are at
   * most maxSize of them, else its subgroups. The members are enumerated
   * in the order their HashSet lists them.
   */
  function ComponentCandidates(c: Component, maxSize: int): seq<seq<int>>
  {
    if |c.members| <= maxSize then [c.members] else Subgroups(c.members, maxSize)
  }

  function SccCandidates(cs: seq<Component>, maxSize: int): seq<seq<int>>
  {
    if cs == [] then []
    else SccCandidates(cs[..|cs| - 1], maxSize) + ComponentCandidates(cs[|cs| - 1], maxSize)
  }

  function Singletons(parts: seq<int>): (r: seq<seq<int>>)
    ensures |r| == |parts|
    ensures forall i :: 0 <= i < |parts| ==> r[i] == [parts[i]]
  {
    MapSeq(parts, (p: int) => [p])
  }

  /** The candidates: nothing without a graph or for maxSize <= 0; else the component candidates, then the free parts alone. */
  function Candidates(graph: Option<GraphModel>, maxSize: int): seq<seq<int>>
  {
    if graph.None? || maxSize <= 0 then []
    else SccCandidates(graph.value.components, maxSize) + Singletons(GetFreeParts(graph.value))
  }

  /** GenerateCandidates. */
  method GenerateCandidates(graph: Option<GraphModel>, maxGroupSize: int) returns (candidates: seq<seq<int>>)
    ensures candidates == Candidates(graph, maxGroupSize)
  {
    candidates := [];
    if graph.None? || maxGroupSize <= 0 {
      return;
    }
    var g := graph.value;
    var sccs := g.components;
    for i := 0 to |sccs|
      invariant candidates == SccCandidates(sccs[..i], maxGroupSize)
    {
      PrefixStep(sccs, i);
      var scc := sccs[i];
      if |scc.members| <= maxGroupSize {
        candidates := candidates + [scc.members];
      } else {
        var subgroups := GenerateSubgroups(scc.members, maxGroupSize);
        candidates := candidates + subgroups;
      }
    }
    PrefixWhole(sccs);
    ghost var fromSccs := candidates;
    var freeParts := GetFreeParts(g);
    for i := 0 to |freeParts|
      invariant candidates == fromSccs + Singletons(freeParts[..i])
    {
      MapSeqSnoc(freeParts, (p: int) => [p], i);
      candidates := candidates + [[freeParts[i]]];
    }
    PrefixWhole(freeParts);
  }

  /** Some component holds every member of the group. */
  ghost predicate FromComponent(cs: seq<Component>, group: seq<int>)
  {
    exists k :: 0 <= k < |cs| && forall x :: x in group ==> x in cs[k].members
  }

  lemma ComponentCandidatesShape(c: Component, maxSize: int, i: nat)
    requires i < |ComponentCandidates(c, maxSize)|
    ensures |ComponentCandidates(c, maxSize)[i]| <= maxSize
    ensures forall x :: x in ComponentCandidates(c, maxSize)[i] ==> x in c.members
  {
    var members := c.members;
    if |c.members| > maxSize {
      SubgroupsFromShape(members, Min(maxSize, |members|), i);
    }
  }

  lemma {:induction false} SccCandidatesShape(cs: seq<Component>, maxSize: int, i: nat)
    requires i < |SccCandidates(cs, maxSize)|
    ensures |SccCandidates(cs, maxSize)[i]| <= maxSize
    ensures FromComponent(cs, SccCandidates(cs, maxSize)[i])
  {
    var init := cs[..|cs| - 1];
    var front := SccCandidates(init, maxSize);
    var g := SccCandidates(cs, maxSize)[i];
    if i < |front| {
      SccCandidatesShape(init, maxSize, i);
      var k :| 0 <= k < |init| && forall x :: x in g ==> x in init[k].members;
      assert init[k] == cs[k];
    } else {
      ComponentCandidatesShape(cs[|cs| - 1], maxSize, i - |front|);
      assert forall x :: x in g ==> x in cs[|cs| - 1].members;
    }
  }

  /**
   * No candidate is larger than maxGroupSize; the component candidates come
   * first, each inside one component, and the rest are the free parts, one
   * singleton each, in order.
   */
  lemma CandidatesFacts(graph: Option<GraphModel>, maxSize: int, i: nat)
    ensures graph.None? || maxSize <= 0 ==> Candidates(graph, maxSize) == []
    ensures graph.Some? && maxSize > 0 ==>
      var g := graph.value;
      var front := SccCandidates(g.components, maxSize);
      var r := Candidates(graph, maxSize);
      && |r| == |front| + |GetFreeParts(g)|
      && (i < |r| ==> |r[i]| <= maxSize)
      && (i < |front| ==> FromComponent(g.components, r[i]))
      && (|front| <= i < |r| ==> r[i] == [GetFreeParts(g)[i - |front|]])
  {
    if graph.Some? && maxSize > 0 {
      var g := graph.value;
      var front := SccCandidates(g.components, maxSize);
      if i < |front| {
        SccCandidatesShape(g.components, maxSize, i);
      }
    }
  }

  // ---------------------------------------------------------------------
  // EvaluateCandidate
  // ---------------------------------------------------------------------

  predicate Internal(e: BlockingEdge, group: set<int>)
  {
    e.from in group && e.to in group
  }

  predicate External(e: BlockingEdge, group: set<int>)
  {
    !Internal(e, group) && (e.from in group || e.to in group)
  }

  function InternalCount(edges: seq<BlockingEdge>, group: set<int>): nat
  {
    if edges == [] then 0
    else InternalCount(edges[..|edges| - 1], group) + (if Internal(edges[|edges| - 1], group) then 1 else 0)
  }

  function ExternalCount(edges: seq<BlockingEdge>, group: set<int>): nat
  {
    if edges == [] then 0
    else ExternalCount(edges[..|edges| - 1], group) + (if External(edges[|edges| - 1], group) then 1 else 0)
  }

  function RealMax(a: real, b: real): real
  {
    if a >= b then a else b
  }

  /** The heuristic: internal edges over one more than the external edges; 0 for an empty group. */
  function Score(group: seq<int>, g: GraphModel): real
  {
    if group == [] then 0.0
    else
      var s := set x | x in group;
      (InternalCount(g.allBlockingEdges, s) as real) / RealMax(1.0, ExternalCount(g.allBlockingEdges, s) as real + 1.0)
  }

  /** EvaluateCandidate: 0 for a missing or empty group or a missing graph, else one counting pass over the edges. */
  method EvaluateCandidate(group: Option<seq<int>>, graph: Option<GraphModel>) returns (score: real)
    ensures score == if group.None? || graph.None? then 0.0 else Score(group.value, graph.value)
  {
    if group.None? || graph.None? || |group.value| == 0 {
      return 0.0;
    }
    var internalConnections := 0.0;
    var externalConnections := 0.0;
    var groupSet := set x | x in group.value;
    var edges := graph.value.allBlockingEdges;
    for i := 0 to |edges|
      invariant internalConnections == InternalCount(edges[..i], groupSet) as real
      invariant externalConnections == ExternalCount(edges[..i], groupSet) as real
    {
      PrefixStep(edges, i);
      var edge := edges[i];
      var fromIn := edge.from in groupSet;
      var toIn := edge.to in groupSet;
      if fromIn && toIn {
        internalConnections := internalConnections + 1.0;
      } else if fromIn || toIn {
        externalConnections := externalConnections + 1.0;
      }
    }
    PrefixWhole(edges);
    score := internalConnections / RealMax(1.0, externalConnections + 1.0);
  }

  /** No edge is counted both as internal and as external. */
  lemma {:induction false} CountsBounded(edges: seq<BlockingEdge>, group: set<int>)
    ensures InternalCount(edges, group) + ExternalCount(edges, group) <= |edges|
  {
    if edges != [] {
      CountsBounded(edges[..|edges| - 1], group);
    }
  }

  lemma {:induction false} InternalCountZero(edges: seq<BlockingEdge>, group: set<int>)
    ensures InternalCount(edges, group) == 0 <==> forall i :: 0 <= i < |edges| ==> !Internal(edges[i], group)
  {
    if edges != [] {
      var init := edges[..|edges| - 1];
      InternalCountZero(init, group);
      assert forall i :: 0 <= i < |init| ==> init[i] == edges[i];
    }
  }

  /**
   * The score lies between 0 and the internal edge count, and is 0 exactly
   * when the group is empty or no edge runs inside it.
   */
  lemma ScoreFacts(group: seq<int>, g: GraphModel)
    ensures var s := set x | x in group;
      && 0.0 <= Score(group, g) <= InternalCount(g.allBlockingEdges, s) as real
      && (Score(group, g) == 0.0 <==> group == [] || forall i :: 0 <= i < |g.allBlockingEdges| ==> !Internal(g.allBlockingEdges[i], s))
  {
    var s := set x | x in group;
    InternalCountZero(g.allBlockingEdges, s);
    if group != [] {
      var ic := InternalCount(g.allBlockingEdges, s) as real;
      var d := RealMax(1.0, ExternalCount(g.allBlockingEdges, s) as real + 1.0);
      DivideAtLeastOne(ic, d);
    }
  }

  /** Dividing a non-negative number by at least one keeps it between 0 and itself, and 0 only when it was 0. */
  lemma DivideAtLeastOne(x: real, d: real)
    requires x >= 0.0 && d >= 1.0
    ensures 0.0 <= x / d <= x
    ensures x / d == 0.0 <==> x == 0.0
  {
    var q := x / d;
    assert q * d == x;
    assert q * d - q == q * (d - 1.0);
  }

  // ---------------------------------------------------------------------
  // RankCandidates
  // ---------------------------------------------------------------------

  type Ranked = (seq<int>, real)

  /** Insert after every entry whose score is at least the new one's (OrderByDescending is stable). */
  function InsertByScore(ys: seq<Ranked>, x: Ranked): (r: seq<Ranked>)
    ensures |r| == |ys| + 1
  {
    if ys == [] then [x]
    else if ys[|ys| - 1].1 >= x.1 then ys + [x]
    else InsertByScore(ys[..|ys| - 1], x) + [ys[|ys| - 1]]
  }

  function SortByScore(xs: seq<Ranked>): (r: seq<Ranked>)
    ensures |r| == |xs|
  {
    if xs == [] then [] else InsertByScore(SortByScore(xs[..|xs| - 1]), xs[|xs| - 1])
  }

  function Scored(candidates: seq<seq<int>>, g: GraphModel): (r: seq<Ranked>)
    ensures |r| == |candidates|
    ensures forall i :: 0 <= i < |candidates| ==> r[i] == (candidates[i], Score(candidates[i], g))
  {
    MapSeq(candidates, (c: seq<int>) => (c, Score(c, g)))
  }

  /** RankCandidates: empty without candidates or graph; else each candidate with its score, best first. */
  function RankCandidates(candidates: Option<seq<seq<int>>>, graph: Option<GraphModel>): seq<Ranked>
  {
    if candidates.None? || graph.None? then [] else SortByScore(Scored(candidates.value, graph.value))
  }

  predicate NonIncreasing(ys: seq<Ranked>)
  {
    forall i, j :: 0 <= i < j < |ys| ==> ys[i].1 >= ys[j].1
  }

  /** The entries with score s, in order. */
  function WithScore(ys: seq<Ranked>, s: real): seq<Ranked>
  {
    if ys == [] then []
    else WithScore(ys[..|ys| - 1], s) + (if ys[|ys| - 1].1 == s then [ys[|ys| - 1]] else [])
  }

  lemma {:induction false} InsertPermutes(ys: seq<Ranked>, x: Ranked)
    ensures multiset(InsertByScore(ys, x)) == multiset(ys) + multiset{x}
  {
    if ys != [] && ys[|ys| - 1].1 < x.1 {
      var init := ys[..|ys| - 1];
      InsertPermutes(init, x);
      assert ys == init + [ys[|ys| - 1]];
    }
  }

  lemma {:induction false} InsertSorted(ys: seq<Ranked>, x: Ranked)
    requires NonIncreasing(ys)
    ensures NonIncreasing(InsertByScore(ys, x))
  {
    if ys != [] {
      var init, y := ys[..|ys| - 1], ys[|ys| - 1];
      if y.1 < x.1 {
        assert NonIncreasing(init);
        InsertSorted(init, x);
        var front := InsertByScore(init, x);
        forall k | 0 <= k < |front| ensures front[k].1 >= y.1 {
          InsertMember(init, x, front[k]);
          if front[k] in init {
            var m :| 0 <= m < |init| && init[m] == front[k];
            assert ys[m] == init[m];
          }
        }
        SnocNonIncreasing(front, y);
      }
    }
  }

  lemma InsertMember(ys: seq<Ranked>, x: Ranked, z: Ranked)
    requires z in InsertByScore(ys, x)
    ensures z in ys || z == x
  {
    InsertPermutes(ys, x);
    assert z in multiset(InsertByScore(ys, x));
  }

  lemma SnocNonIncreasing(front: seq<Ranked>, y: Ranked)
    requires NonIncreasing(front)
    requires forall k :: 0 <= k < |front| ==> front[k].1 >= y.1
    ensures NonIncreasing(front + [y])
  {
  }

  lemma {:induction false} InsertStable(ys: seq<Ranked>, x: Ranked, s: real)
    ensures WithScore(InsertByScore(ys, x), s) == WithScore(ys, s) + (if x.1 == s then [x] else [])
  {
    if ys == [] {
      assert [x][..0] == [];
    } else {
      var init, y := ys[..|ys| - 1], ys[|ys| - 1];
      if y.1 >= x.1 {
        assert (ys + [x])[..|ys|] == ys;
      } else {
        InsertStable(init, x, s);
        var front := InsertByScore(init, x);
        assert (front + [y])[..|front|] == front;
      }
    }
  }

  /** The ranking sorts by non-increasing score, is a permutation, and keeps the input order among equal scores. */
  lemma SortByScoreFacts(xs: seq<Ranked>, s: real)
    ensures NonIncreasing(SortByScore(xs))
    ensures multiset(SortByScore(xs)) == multiset(xs)
    ensures WithScore(SortByScore(xs), s) == WithScore(xs, s)
  {
    SortByScoreSorted(xs);
    SortByScorePermutes(xs);
    SortByScoreStable(xs, s);
  }

  lemma {:induction false} SortByScoreSorted(xs: seq<Ranked>)
    ensures NonIncreasing(SortByScore(xs))
  {
    if xs != [] {
      SortByScoreSorted(xs[..|xs| - 1]);
      InsertSorted(SortByScore(xs[..|xs| - 1]), xs[|xs| - 1]);
    }
  }

  lemma {:induction false} SortByScorePermutes(xs: seq<Ranked>)
    ensures multiset(SortByScore(xs)) == multiset(xs)
  {
    if xs != [] {
      var init, last := xs[..|xs| - 1], xs[|xs| - 1];
      SortByScorePermutes(init);
      InsertPermutes(SortByScore(init), last);
      assert xs == init + [last];
    }
  }

  lemma {:induction false} SortByScoreStable(xs: seq<Ranked>, s: real)
    ensures WithScore(SortByScore(xs), s) == WithScore(xs, s)
  {
    if xs != [] {
      var init, last := xs[..|xs| - 1], xs[|xs| - 1];
      SortByScoreStable(init, s);
      InsertStable(SortByScore(init), last, s);
    }
  }

  /** RankCandidates pairs every candidate with its score, best first, ties in input order. */
  lemma RankCandidatesFacts(candidates: Option<seq<seq<int>>>, graph: Option<GraphModel>, s: real)
    ensures candidates.None? || graph.None? ==> RankCandidates(candidates, graph) == []
    ensures candidates.Some? && graph.Some? ==>
      var r := RankCandidates(candidates, graph);
      var scored := Scored(candidates.value, graph.value);
      && NonIncreasing(r)
      && multiset(r) == multiset(scored)
      && WithScore(r, s) == WithScore(scored, s)
  {
    if candidates.Some? && graph.Some? {
      SortByScoreFacts(Scored(candidates.value, graph.value), s);
    }
  }
}
