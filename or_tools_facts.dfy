// What the managed OR-Tools fallback promises, proved about its specification:
// the constraint syntax round-trips, the graph holds every declared dependency,
// a resolved order is the smallest topological order and passes both
// validations, the SAT search keeps the first largest satisfying assignment,
// and each solve path ends in a result of the right shape.
module OrToolsFacts {
  import opened Common
  import IntSets
  import opened Motion
  import opened PlanningGraph
  import opened Constraints
  import opened Entities
  import opened SolverModels
  import opened DependencyGraphs
  import opened OrToolsSpec

  // ---------------------------------------------------------------------
  // Constraint syntax
  // ---------------------------------------------------------------------

  predicate NoChar(s: string, c: char) { forall j :: 0 <= j < |s| ==> s[j] != c }

  lemma IntToStringShape(n: int)
    ensures |IntToString(n)| >= 1
    ensures NoChar(IntToString(n), '>') && NoChar(IntToString(n), ' ') && NoChar(IntToString(n), ',')
    ensures IsDigit(IntToString(n)[|IntToString(n)| - 1])
    ensures IsDigit(IntToString(n)[0]) || (IntToString(n)[0] == '-' && |IntToString(n)| >= 2 && IsDigit(IntToString(n)[1]))
  {
    var d := NatToString(if n < 0 then -n else n);
    if n < 0 {
      assert IntToString(n) == "-" + d;
      assert IntToString(n)[1] == d[0];
    }
  }

  /** Scanning a separator-free stretch only gathers it into the current piece. */
  lemma {:induction false} SplitStringSkip(a: string, rest: string, sep: string, cur: string)
    requires |sep| > 0
    requires forall i :: 0 <= i < |a| ==> !StartsWith((a + rest)[i..], sep)
    ensures SplitStringFrom(a + rest, sep, cur) == SplitStringFrom(rest, sep, cur + a)
    decreases |a|
  {
    if a == [] {
      assert a + rest == rest && cur + a == cur;
    } else {
      assert !StartsWith((a + rest)[0..], sep);
      assert (a + rest)[0..] == a + rest;
      assert (a + rest)[0] == a[0] && (a + rest)[1..] == a[1..] + rest;
      forall i | 0 <= i < |a[1..]| ensures !StartsWith((a[1..] + rest)[i..], sep) {
        assert (a[1..] + rest)[i..] == (a + rest)[i + 1..];
      }
      assert cur + a == (cur + [a[0]]) + a[1..];
      SplitStringSkip(a[1..], rest, sep, cur + [a[0]]);
    }
  }

  /** "x->y" with two printed integers splits on "->" into exactly the two numbers. */
  lemma SplitArrow(x: string, y: string)
    requires |x| >= 1 && |y| >= 1 && NoChar(x, '>') && NoChar(y, '>') && x[|x| - 1] != '-'
    ensures SplitStringRemoveEmpty(x + "->" + y, "->") == [x, y]
  {
    var rest := "->" + y;
    assert x + "->" + y == x + rest;
    forall i | 0 <= i < |x| ensures !StartsWith((x + rest)[i..], "->") {
      if i + 1 < |x| {
        assert (x + rest)[i..][1] == x[i + 1];
      } else {
        assert (x + rest)[i..][0] == x[i];
      }
    }
    SplitStringSkip(x, rest, "->", []);
    assert [] + x == x;
    assert StartsWith(rest, "->") && rest[2..] == y;
    forall i | 0 <= i < |y| ensures !StartsWith((y + [])[i..], "->") {
      if i + 1 < |y| {
        assert (y + [])[i..][1] == y[i + 1];
      }
    }
    SplitStringSkip(y, [], "->", []);
    assert y + [] == y && [] + y == y;
  }

  /** A printed implication parses back to the same trigger and target. */
  lemma ImplicationRoundTrip(part: int, trigger: int, target: int)
    requires IsInt32(trigger) && IsInt32(target)
    ensures ParseImplication(part, ImpliesPrefix + IntToString(trigger) + "->" + IntToString(target))
            == Ok(Implication(part, trigger, target))
  {
    var x := IntToString(trigger);
    var y := IntToString(target);
    var d := ImpliesPrefix + x + "->" + y;
    IntToStringShape(trigger);
    IntToStringShape(target);
    assert d[|ImpliesPrefix|..] == x + "->" + y;
    SplitArrow(x, y);
    IntToStringParses(trigger);
    IntToStringParses(target);
  }

  /** An implication payload that is not two pieces is a FormatException naming the definition. */
  lemma ImplicationMalformed(part: int, definition: string)
    requires |definition| >= |ImpliesPrefix|
    requires |SplitStringRemoveEmpty(definition[|ImpliesPrefix|..], "->")| != 2
    ensures ParseImplication(part, definition)
            == Err(Fault("FormatException", "Invalid implication constraint '" + definition + "'."))
  {
  }

  /** A string starting with a letter and ending with a digit is its own trim. */
  lemma TrimKeeps(s: string)
    requires |s| >= 1 && !IsDotNetWhiteSpace(s[0]) && !IsDotNetWhiteSpace(s[|s| - 1])
    ensures Trim(s) == s && !IsBlank(s)
  {
  }

  /** "requires:n" declares n as a dependency of the part. */
  lemma ClassifyRequires(part: int, n: int)
    requires IsInt32(n)
    ensures ClassifyConstraint(part, RequiresPrefix + IntToString(n)) == Ok(Requires(n))
  {
    var s := RequiresPrefix + IntToString(n);
    IntToStringShape(n);
    TrimKeeps(s);
    assert s[..|RequiresPrefix|] == RequiresPrefix;
    assert s[|RequiresPrefix|..] == IntToString(n);
    IntToStringParses(n);
  }

  /** A trimmed constraint that starts with "implies:" is parsed as an implication. */
  lemma ClassifyImpliesText(part: int, s: string)
    requires |s| >= |ImpliesPrefix| && s[..|ImpliesPrefix|] == ImpliesPrefix
    requires !IsDotNetWhiteSpace(s[|s| - 1])
    ensures ClassifyConstraint(part, s) == (match ParseImplication(part, s) case Err(f) => Err(f) case Ok(imp) => Ok(Implies(imp)))
  {
    TrimKeeps(s);
    assert !StartsWithIgnoreCase(s, RequiresPrefix) by {
      if |RequiresPrefix| <= |s| {
        assert UpperAscii(s[..|RequiresPrefix|])[0] == 'I';
      }
    }
  }

  /** "implies:t->g" records the implication of the part. */
  lemma ClassifyImplies(part: int, trigger: int, target: int)
    requires IsInt32(trigger) && IsInt32(target)
    ensures ClassifyConstraint(part, ImpliesPrefix + IntToString(trigger) + "->" + IntToString(target))
            == Ok(Implies(Implication(part, trigger, target)))
  {
    var s := ImpliesPrefix + IntToString(trigger) + "->" + IntToString(target);
    IntToStringShape(target);
    assert s[..|ImpliesPrefix|] == ImpliesPrefix;
    ClassifyImpliesText(part, s);
    ImplicationRoundTrip(part, trigger, target);
  }

  /** "forbid", in any letter case, forbids the part to move. */
  lemma ClassifyForbid(part: int, s: string)
    requires EqualsIgnoreCase(s, "forbid")
    ensures ClassifyConstraint(part, s) == Ok(Forbid)
  {
    assert |s| == 6;
    assert UpperAscii(s)[0] == 'F';
    TrimKeeps(s);
  }

  // ---------------------------------------------------------------------
  // Declarative constraints
  // ---------------------------------------------------------------------

  /** Constraint j of entry i classifies as Ok(d). */
  predicate Declares(entries: seq<(int, seq<string>)>, i: int, j: int, d: Directive)
  {
    0 <= i < |entries| && 0 <= j < |entries[i].1| && ClassifyConstraint(entries[i].0, entries[i].1[j]) == Ok(d)
  }

  /** What applying directives keeps: edges, the dependency count, recorded implications and forbidden parts only grow. */
  ghost predicate Grows(a: DeclState, b: DeclState)
  {
    && (forall u, v :: Edge(a.adjacency, u, v) ==> Edge(b.adjacency, u, v))
    && a.adjacency.Keys <= b.adjacency.Keys
    && a.dependencyCount <= b.dependencyCount
    && a.implications <= b.implications
    && (forall x :: x in a.forbidden ==> x in b.forbidden)
  }

  lemma GrowsTrans(a: DeclState, b: DeclState, c: DeclState)
    requires Grows(a, b) && Grows(b, c)
    ensures Grows(a, c)
  {
  }

  lemma DirectiveGrows(st: DeclState, part: int, d: Directive)
    ensures Grows(st, ApplyDirective(st, part, d))
  {
  }

  lemma {:induction false} ConstraintsGrow(st: DeclState, part: int, cs: seq<string>)
    ensures ApplyConstraints(st, part, cs).Ok? ==> Grows(st, ApplyConstraints(st, part, cs).value)
    decreases |cs|
  {
    if cs != [] {
      ConstraintsGrow(st, part, cs[..|cs| - 1]);
      var prev := ApplyConstraints(st, part, cs[..|cs| - 1]);
      if prev.Ok? {
        var d := ClassifyConstraint(part, cs[|cs| - 1]);
        if d.Ok? {
          DirectiveGrows(prev.value, part, d.value);
          GrowsTrans(st, prev.value, ApplyDirective(prev.value, part, d.value));
        }
      }
    }
  }

  /** Applying the declarative constraints never removes an edge, an implication or a forbidden part. */
  lemma {:induction false} DeclarativeGrows(st: DeclState, entries: seq<(int, seq<string>)>)
    ensures ApplyDeclarative(st, entries).Ok? ==> Grows(st, ApplyDeclarative(st, entries).value)
    decreases |entries|
  {
    if entries != [] {
      var last := entries[|entries| - 1];
      DeclarativeGrows(st, entries[..|entries| - 1]);
      var prev := ApplyDeclarative(st, entries[..|entries| - 1]);
      if prev.Ok? {
        ConstraintsGrow(prev.value, last.0, last.1);
        if ApplyConstraints(prev.value, last.0, last.1).Ok? {
          GrowsTrans(st, prev.value, ApplyConstraints(prev.value, last.0, last.1).value);
        }
      }
    }
  }

  /** The state after constraint j of a part already has that constraint's effect. */
  lemma {:induction false} ConstraintTakesEffect(st: DeclState, part: int, cs: seq<string>, j: int, d: Directive)
    requires 0 <= j < |cs| && ClassifyConstraint(part, cs[j]) == Ok(d)
    requires ApplyConstraints(st, part, cs).Ok?
    ensures var r := ApplyConstraints(st, part, cs).value;
      && (d.Requires? ==> Edge(r.adjacency, d.dependency, part))
      && (d.Forbid? ==> part in r.forbidden)
      && (d.Implies? ==> d.implication in r.implications)
    decreases |cs|
  {
    var init := cs[..|cs| - 1];
    var prev := ApplyConstraints(st, part, init).value;
    var last := ClassifyConstraint(part, cs[|cs| - 1]).value;
    var r := ApplyDirective(prev, part, last);
    if j == |cs| - 1 {
    } else {
      assert init[j] == cs[j];
      ConstraintTakesEffect(st, part, init, j, d);
      DirectiveGrows(prev, part, last);
    }
  }

  /** Every declared dependency, forbidden part and implication is in the result. */
  lemma {:induction false} DeclarativeTakesEffect(st: DeclState, entries: seq<(int, seq<string>)>, i: int, j: int, d: Directive)
    requires Declares(entries, i, j, d)
    requires ApplyDeclarative(st, entries).Ok?
    ensures var r := ApplyDeclarative(st, entries).value;
      && (d.Requires? ==> Edge(r.adjacency, d.dependency, entries[i].0))
      && (d.Forbid? ==> entries[i].0 in r.forbidden)
      && (d.Implies? ==> d.implication in r.implications)
    decreases |entries|
  {
    var init := entries[..|entries| - 1];
    var last := entries[|entries| - 1];
    var prev := ApplyDeclarative(st, init).value;
    if i == |entries| - 1 {
      ConstraintTakesEffect(prev, last.0, last.1, j, d);
    } else {
      assert init[i] == entries[i];
      DeclarativeTakesEffect(st, init, i, j, d);
      ConstraintsGrow(prev, last.0, last.1);
    }
  }

  /** Conversely, a new edge u -> part comes from a "requires:u" constraint of that part. */
  lemma {:induction false} ConstraintEdgeSource(st: DeclState, part: int, cs: seq<string>, u: int, v: int) returns (j: int)
    requires ApplyConstraints(st, part, cs).Ok?
    requires Edge(ApplyConstraints(st, part, cs).value.adjacency, u, v) && !Edge(st.adjacency, u, v)
    ensures v == part && 0 <= j < |cs| && ClassifyConstraint(part, cs[j]) == Ok(Requires(u))
    decreases |cs|
  {
    var init := cs[..|cs| - 1];
    var prev := ApplyConstraints(st, part, init).value;
    var d := ClassifyConstraint(part, cs[|cs| - 1]).value;
    if Edge(prev.adjacency, u, v) {
      j := ConstraintEdgeSource(st, part, init, u, v);
      assert init[j] == cs[j];
    } else {
      j := |cs| - 1;
    }
  }

  /** Every edge the declarative constraints add is a declared dependency. */
  lemma {:induction false} DeclarativeEdgeSource(st: DeclState, entries: seq<(int, seq<string>)>, u: int, v: int) returns (i: int, j: int)
    requires ApplyDeclarative(st, entries).Ok?
    requires Edge(ApplyDeclarative(st, entries).value.adjacency, u, v) && !Edge(st.adjacency, u, v)
    ensures Declares(entries, i, j, Requires(u)) && entries[i].0 == v
    decreases |entries|
  {
    var init := entries[..|entries| - 1];
    var last := entries[|entries| - 1];
    var prev := ApplyDeclarative(st, init).value;
    if Edge(prev.adjacency, u, v) {
      i, j := DeclarativeEdgeSource(st, init, u, v);
      assert init[i] == entries[i];
    } else {
      i := |entries| - 1;
      j := ConstraintEdgeSource(prev, last.0, last.1, u, v);
    }
  }

  /** A constraint that fails to parse makes the whole construction fail. */
  lemma {:induction false} ConstraintsFail(st: DeclState, part: int, cs: seq<string>, j: int)
    requires 0 <= j < |cs| && ClassifyConstraint(part, cs[j]).Err?
    ensures ApplyConstraints(st, part, cs).Err?
    decreases |cs|
  {
    var init := cs[..|cs| - 1];
    if j < |cs| - 1 {
      assert init[j] == cs[j];
      ConstraintsFail(st, part, init, j);
    }
  }

  lemma {:induction false} DeclarativeFails(st: DeclState, entries: seq<(int, seq<string>)>, i: int, j: int)
    requires 0 <= i < |entries| && 0 <= j < |entries[i].1| && ClassifyConstraint(entries[i].0, entries[i].1[j]).Err?
    ensures ApplyDeclarative(st, entries).Err?
    decreases |entries|
  {
    var init := entries[..|entries| - 1];
    if i < |entries| - 1 {
      assert init[i] == entries[i];
      DeclarativeFails(st, init, i, j);
    } else {
      var prev := ApplyDeclarative(st, init);
      if prev.Ok? {
        ConstraintsFail(prev.value, entries[i].0, entries[i].1, j);
      }
    }
  }

  // ---------------------------------------------------------------------
  // The dependency graph
  // ---------------------------------------------------------------------

  /** The blocking edges are exactly the edges added to the initial graph. */
  lemma {:induction false} BlockingEdgesAdded(adj: Adjacency, edges: seq<BlockingEdge>, u: int, v: int)
    ensures Edge(AddBlockingEdges(adj, edges), u, v) <==> Edge(adj, u, v) || BlockingEdge(u, v) in edges
    ensures AddBlockingEdges(adj, edges).Keys == adj.Keys + (set e | e in edges :: e.from)
    decreases |edges|
  {
    if edges != [] {
      var init := edges[..|edges| - 1];
      BlockingEdgesAdded(adj, init, u, v);
      assert edges == init + [edges[|edges| - 1]];
      assert (set e | e in edges :: e.from) == (set e | e in init :: e.from) + {edges[|edges| - 1].from};
    }
  }

  /**
   * BuildDependencyGraph: every part id is a key, every blocking edge is an edge,
   * and every other edge is a declared dependency; each dependency is counted.
   */
  lemma DependencyGraphEdges(r: Request, u: int, v: int)
    requires DependencyGraphOf(r).Ok?
    ensures var g := DependencyGraphOf(r).value;
      && GraphPartIds(r) <= g.adjacency.Keys
      && g.dependencyCount >= |r.constraints.graph.allBlockingEdges|
      && (BlockingEdge(u, v) in r.constraints.graph.allBlockingEdges ==> Edge(g.adjacency, u, v))
      && (Edge(g.adjacency, u, v) ==>
            BlockingEdge(u, v) in r.constraints.graph.allBlockingEdges
            || exists i, j :: Declares(r.constraints.partConstraints, i, j, Requires(u)) && r.constraints.partConstraints[i].0 == v)
  {
    var edges := r.constraints.graph.allBlockingEdges;
    var init := InitialAdjacency(GraphPartIds(r));
    var base := AddBlockingEdges(init, edges);
    var st := DeclState(base, |edges|, [], []);
    var g := DependencyGraphOf(r).value;
    BlockingEdgesAdded(init, edges, u, v);
    DeclarativeGrows(st, r.constraints.partConstraints);
    if Edge(g.adjacency, u, v) && !Edge(base, u, v) {
      var i, j := DeclarativeEdgeSource(st, r.constraints.partConstraints, u, v);
    }
  }

  // ---------------------------------------------------------------------
  // Resolving and validating an order
  // ---------------------------------------------------------------------

  /**
   * ResolveOrder succeeds exactly for an acyclic graph whose smallest topological
   * order violates no implication and contains no forbidden part, and then gives that order.
   */
  lemma ResolveOrderResult(adj: Adjacency, imps: seq<Implication>, forbidden: seq<int>)
    ensures !HasTopoOrder(adj) ==> ResolveOrder(adj, imps, forbidden) == Err(ConflictFailure(CycleMessage))
    ensures ResolveOrder(adj, imps, forbidden).Ok? <==>
              HasTopoOrder(adj)
              && (forall i :: 0 <= i < |imps| ==> !Violates(imps[i], LeastTopoOrder(adj)))
              && (forall i :: 0 <= i < |forbidden| ==> forbidden[i] !in Nodes(adj))
    ensures ResolveOrder(adj, imps, forbidden).Ok? ==>
              ResolveOrder(adj, imps, forbidden).value == LeastTopoOrder(adj)
              && IsLeastTopoOrder(adj, ResolveOrder(adj, imps, forbidden).value)
  {
    if HasTopoOrder(adj) {
      var o := LeastTopoOrder(adj);
      assert forall x :: x in o <==> x in Nodes(adj);
    }
  }

  /** A violated implication is reported as a conflict naming the first one violated. */
  lemma ResolveOrderViolation(adj: Adjacency, imps: seq<Implication>, forbidden: seq<int>, i: nat)
    requires HasTopoOrder(adj) && i < |imps| && Violates(imps[i], LeastTopoOrder(adj))
    ensures ResolveOrder(adj, imps, forbidden).Err? && ResolveOrder(adj, imps, forbidden).error.ConflictFailure?
  {
  }

  /** Under the validation, the source never precedes the trigger while the target follows it. */
  lemma ValidatedImplication(imp: Implication, order: seq<int>, s: nat, t: nat, g: nat)
    requires !Violates(imp, order) && Distinct(order)
    requires s < |order| && t < |order| && g < |order|
    requires order[s] == imp.source && order[t] == imp.trigger && order[g] == imp.target
    ensures !(s < t && t < g)
  {
    PositionUnique(order, imp.source, s);
    PositionUnique(order, imp.trigger, t);
    PositionUnique(order, imp.target, g);
  }

  lemma PositionUnique(order: seq<int>, x: int, k: nat)
    requires Distinct(order) && k < |order| && order[k] == x
    ensures PositionIn(order, x) == Some(k)
  {
  }

  // ---------------------------------------------------------------------
  // SAT clauses
  // ---------------------------------------------------------------------

  /** A token "P" + t: the index t + 1, or nothing when t is not an integer. */
  lemma PositiveToken(t: string)
    ensures ParseLiteral("P" + t) == (match ParseInt32(t) case Some(i) => Ok(Some(Wrap32(i + 1))) case None => Ok(None))
  {
    var s := "P" + t;
    assert s[..1] == "P" && s[1..] == t;
  }

  /** A token "-P" + t: the negated index -(t + 1), or nothing when t is not an integer. */
  lemma NegativeToken(t: string)
    ensures ParseLiteral("-P" + t) == (match ParseInt32(t) case Some(i) => Ok(Some(Wrap32(-Wrap32(i + 1)))) case None => Ok(None))
  {
    var s := "-P" + t;
    assert s[..2] == "-P" && s[2..] == t;
    assert !StartsWithIgnoreCase(s, "P") by {
      assert UpperAscii(s[..1])[0] == '-';
    }
  }

  /** "Pi" is the positive literal i + 1 of part i. */
  lemma PositiveLiteral(i: int)
    requires IsInt32(i)
    ensures ParseLiteral("P" + IntToString(i)) == Ok(Some(Wrap32(i + 1)))
  {
    IntToStringParses(i);
    PositiveIndex(IntToString(i), i);
  }

  lemma PositiveIndex(t: string, i: int)
    requires ParseInt32(t) == Some(i)
    ensures ParseLiteral("P" + t) == Ok(Some(Wrap32(i + 1)))
  {
    PositiveToken(t);
  }

  /** "-Pi" is the negative literal -(i + 1) of part i. */
  lemma NegativeLiteral(i: int)
    requires IsInt32(i)
    ensures ParseLiteral("-P" + IntToString(i)) == Ok(Some(Wrap32(-Wrap32(i + 1))))
  {
    IntToStringParses(i);
    NegativeIndex(IntToString(i), i);
  }

  lemma NegativeIndex(t: string, i: int)
    requires ParseInt32(t) == Some(i)
    ensures ParseLiteral("-P" + t) == Ok(Some(Wrap32(-Wrap32(i + 1))))
  {
    NegativeToken(t);
  }

  /** A printed integer is the literal itself. */
  lemma RawLiteral(n: int)
    requires IsInt32(n)
    ensures ParseLiteral(IntToString(n)) == Ok(Some(n))
  {
    var s := IntToString(n);
    IntToStringShape(n);
    assert !StartsWithIgnoreCase(s, "P") by {
      assert UpperAscii(s[..1])[0] == ToUpperAscii(s[0]);
    }
    assert !StartsWithIgnoreCase(s, "-P") by {
      if |s| >= 2 && s[0] == '-' {
        assert UpperAscii(s[..2])[1] == ToUpperAscii(s[1]);
      }
    }
    IntToStringParses(n);
  }

  lemma {:induction false} ParseClausesNonEmpty(texts: seq<string>)
    ensures ParseClauses(texts).Ok? ==> forall k :: 0 <= k < |ParseClauses(texts).value| ==> |ParseClauses(texts).value[k]| > 0
    decreases |texts|
  {
    if texts != [] {
      ParseClausesNonEmpty(texts[..|texts| - 1]);
    }
  }

  /** Every extracted clause has at least one literal, and without a "sat" group there are none. */
  lemma {:induction false} ClausesNonEmpty(groups: seq<(string, seq<string>)>)
    ensures ExtractClauses(groups).Ok? ==> forall k :: 0 <= k < |ExtractClauses(groups).value| ==> |ExtractClauses(groups).value[k]| > 0
    ensures (forall i :: 0 <= i < |groups| ==> !EqualsIgnoreCase(groups[i].0, "sat")) ==> ExtractClauses(groups) == Ok([])
    decreases |groups|
  {
    if groups != [] {
      var init := groups[..|groups| - 1];
      ClausesNonEmpty(init);
      ParseClausesNonEmpty(groups[|groups| - 1].1);
      if forall i :: 0 <= i < |groups| ==> !EqualsIgnoreCase(groups[i].0, "sat") {
        assert forall i :: 0 <= i < |init| ==> init[i] == groups[i];
      }
    }
  }

  // ---------------------------------------------------------------------
  // The SAT search
  // ---------------------------------------------------------------------

  /** Some mask below m gives a satisfying assignment. */
  predicate SomeSatisfying(clauses: seq<seq<int>>, ids: seq<int>, m: nat)
  {
    exists mask: nat :: mask < m && Satisfies(clauses, Assignment(ids, mask))
  }

  /** No satisfying mask below m gives an assignment larger than best. */
  predicate LargestBelow(clauses: seq<seq<int>>, ids: seq<int>, m: nat, best: set<int>)
  {
    forall mask: nat :: mask < m && Satisfies(clauses, Assignment(ids, mask)) ==> |Assignment(ids, mask)| <= |best|
  }

  /** best is the satisfying assignment of the mask, and every satisfying mask before it gives a smaller one. */
  predicate FirstAt(clauses: seq<seq<int>>, ids: seq<int>, mask: nat, best: set<int>)
  {
    && best == Assignment(ids, mask) && Satisfies(clauses, best)
    && forall early: nat :: early < mask && Satisfies(clauses, Assignment(ids, early)) ==> |Assignment(ids, early)| < |best|
  }

  /** best is the first largest satisfying assignment among the masks below m. */
  predicate FirstLargest(clauses: seq<seq<int>>, ids: seq<int>, m: nat, best: set<int>)
  {
    (exists mask: nat :: mask < m && FirstAt(clauses, ids, mask, best)) && LargestBelow(clauses, ids, m, best)
  }

  /** One more mask satisfies the clauses or not. */
  lemma SomeSatisfyingStep(clauses: seq<seq<int>>, ids: seq<int>, m: nat)
    requires m > 0
    ensures SomeSatisfying(clauses, ids, m) <==> SomeSatisfying(clauses, ids, m - 1) || Satisfies(clauses, Assignment(ids, m - 1))
  {
    if SomeSatisfying(clauses, ids, m) && !Satisfies(clauses, Assignment(ids, m - 1)) {
      var mask: nat :| mask < m && Satisfies(clauses, Assignment(ids, mask));
      assert mask < m - 1;
    }
    if SomeSatisfying(clauses, ids, m - 1) {
      var mask: nat :| mask < m - 1 && Satisfies(clauses, Assignment(ids, mask));
      assert mask < m;
    }
    if Satisfies(clauses, Assignment(ids, m - 1)) {
      var mask: nat := m - 1;
      assert mask < m;
    }
  }

  /** The search finds a satisfying assignment exactly when some mask below m gives one. */
  lemma {:induction false} SearchFound(clauses: seq<seq<int>>, ids: seq<int>, m: nat)
    ensures SearchMasks(clauses, ids, m).found <==> SomeSatisfying(clauses, ids, m)
    ensures !SearchMasks(clauses, ids, m).found ==> SearchMasks(clauses, ids, m).best == {}
  {
    if m > 0 {
      SearchFound(clauses, ids, m - 1);
      SomeSatisfyingStep(clauses, ids, m);
    }
  }

  /** The assignment kept is at least as large as every satisfying one below m. */
  lemma {:induction false} SearchLargest(clauses: seq<seq<int>>, ids: seq<int>, m: nat)
    ensures LargestBelow(clauses, ids, m, SearchMasks(clauses, ids, m).best)
  {
    if m > 0 {
      SearchLargest(clauses, ids, m - 1);
      var s := SearchMasks(clauses, ids, m - 1);
      var r := SearchMasks(clauses, ids, m);
      assert |s.best| <= |r.best|;
    }
  }

  /** The assignment kept is the first of the largest: its mask, found by the search. */
  lemma {:induction false} SearchFirst(clauses: seq<seq<int>>, ids: seq<int>, m: nat) returns (mask: nat)
    requires SearchMasks(clauses, ids, m).found
    ensures mask < m && FirstAt(clauses, ids, mask, SearchMasks(clauses, ids, m).best)
  {
    assert m > 0;
    if KeepsBest(clauses, ids, m) {
      mask := SearchFirst(clauses, ids, m - 1);
    } else {
      mask := m - 1;
      SearchFirstNew(clauses, ids, m);
    }
  }

  /** Mask m - 1 leaves the search state's assignment as it was. */
  predicate KeepsBest(clauses: seq<seq<int>>, ids: seq<int>, m: nat)
    requires m > 0
  {
    var s := SearchMasks(clauses, ids, m - 1);
    && s.found && SearchMasks(clauses, ids, m).best == s.best
  }

  /** When mask m - 1 replaces the assignment, it is the first of its size. */
  lemma SearchFirstNew(clauses: seq<seq<int>>, ids: seq<int>, m: nat)
    requires m > 0 && SearchMasks(clauses, ids, m).found && !KeepsBest(clauses, ids, m)
    ensures FirstAt(clauses, ids, m - 1, SearchMasks(clauses, ids, m).best)
  {
    ReplacedBest(clauses, ids, m);
    NewBestFirst(clauses, ids, m - 1);
  }

  /** Mask m - 1 replaces the assignment only when it satisfies the clauses and beats the one kept. */
  lemma ReplacedBest(clauses: seq<seq<int>>, ids: seq<int>, m: nat)
    requires m > 0 && SearchMasks(clauses, ids, m).found && !KeepsBest(clauses, ids, m)
    ensures Satisfies(clauses, Assignment(ids, m - 1))
    ensures SearchMasks(clauses, ids, m).best == Assignment(ids, m - 1)
    ensures !SearchMasks(clauses, ids, m - 1).found || |Assignment(ids, m - 1)| > |SearchMasks(clauses, ids, m - 1).best|
  {
    var s := SearchMasks(clauses, ids, m - 1);
    var a := Assignment(ids, m - 1);
    SearchFound(clauses, ids, m - 1);
    if !s.found && |a| == 0 {
      assert a == {};
    }
  }

  /** A satisfying mask that beats the search so far is the first of its size. */
  lemma NewBestFirst(clauses: seq<seq<int>>, ids: seq<int>, k: nat)
    requires Satisfies(clauses, Assignment(ids, k))
    requires !SearchMasks(clauses, ids, k).found || |Assignment(ids, k)| > |SearchMasks(clauses, ids, k).best|
    ensures FirstAt(clauses, ids, k, Assignment(ids, k))
  {
    SearchFound(clauses, ids, k);
    SearchLargest(clauses, ids, k);
    FirstAtNew(clauses, ids, k, SearchMasks(clauses, ids, k).found, SearchMasks(clauses, ids, k).best);
  }

  /** A satisfying mask larger than every earlier one is the first of its size. */
  lemma FirstAtNew(clauses: seq<seq<int>>, ids: seq<int>, mask: nat, found: bool, best: set<int>)
    requires Satisfies(clauses, Assignment(ids, mask))
    requires LargestBelow(clauses, ids, mask, best)
    requires found <==> SomeSatisfying(clauses, ids, mask)
    requires !found || |Assignment(ids, mask)| > |best|
    ensures FirstAt(clauses, ids, mask, Assignment(ids, mask))
  {
    forall early: nat | early < mask && Satisfies(clauses, Assignment(ids, early))
      ensures |Assignment(ids, early)| < |Assignment(ids, mask)|
    {
      assert SomeSatisfying(clauses, ids, mask);
    }
  }

  /** The search over masks 0 .. m - 1 finds a satisfying assignment exactly when one exists, and keeps the first largest. */
  lemma SearchCorrect(clauses: seq<seq<int>>, ids: seq<int>, m: nat)
    ensures SearchMasks(clauses, ids, m).found <==> SomeSatisfying(clauses, ids, m)
    ensures SearchMasks(clauses, ids, m).found ==> FirstLargest(clauses, ids, m, SearchMasks(clauses, ids, m).best)
  {
    SearchFound(clauses, ids, m);
    SearchLargest(clauses, ids, m);
    if SearchMasks(clauses, ids, m).found {
      var mask := SearchFirst(clauses, ids, m);
    }
  }

  /** The encoded id of a 32-bit id decodes back to it. */
  lemma EncodeDecode(id: int)
    requires IsInt32(id)
    ensures Wrap32(Wrap32(id + 1) - 1) == id
  {
    if id == INT32_MAX {
      assert Wrap32(id + 1) == INT32_MIN;
    }
  }

  /** Decoding an assignment gives back the ids of the parts whose bit is set. */
  lemma DecodeAssignment(ids: seq<int>, mask: nat)
    requires forall i :: 0 <= i < |ids| ==> IsInt32(ids[i])
    ensures Decode(Assignment(ids, mask)) == set i | 0 <= i < |ids| && MaskBit(mask, i) :: ids[i]
  {
    var lhs := Decode(Assignment(ids, mask));
    var rhs := set i | 0 <= i < |ids| && MaskBit(mask, i) :: ids[i];
    forall x | x in rhs ensures x in lhs {
      var i :| 0 <= i < |ids| && MaskBit(mask, i) && ids[i] == x;
      DecodeHas(ids, mask, i);
    }
    forall x | x in lhs ensures x in rhs {
      var i := DecodedFrom(ids, mask, x);
    }
  }

  lemma DecodeHas(ids: seq<int>, mask: nat, i: nat)
    requires i < |ids| && IsInt32(ids[i]) && MaskBit(mask, i)
    ensures ids[i] in Decode(Assignment(ids, mask))
  {
    EncodeDecode(ids[i]);
    assert Wrap32(ids[i] + 1) in Assignment(ids, mask);
  }

  lemma DecodedFrom(ids: seq<int>, mask: nat, x: int) returns (i: nat)
    requires forall i :: 0 <= i < |ids| ==> IsInt32(ids[i])
    requires x in Decode(Assignment(ids, mask))
    ensures i < |ids| && MaskBit(mask, i) && ids[i] == x
  {
    var e :| e in Assignment(ids, mask) && x == Wrap32(e - 1);
    i :| 0 <= i < |ids| && MaskBit(mask, i) && e == Wrap32(ids[i] + 1);
    EncodeDecode(ids[i]);
  }

  lemma {:induction false} Pow2Add(a: nat, b: nat)
    ensures Pow2(a + b) == Pow2(a) * Pow2(b)
    decreases b
  {
    if b > 0 {
      calc {
        Pow2(a + b);
        2 * Pow2(a + b - 1);
        { Pow2Add(a, b - 1); }
        2 * (Pow2(a) * Pow2(b - 1));
        Pow2(a) * (2 * Pow2(b - 1));
        Pow2(a) * Pow2(b);
      }
    }
  }

  /**
   * The search bound 1 << n is a 32-bit shift: thirty parts give 2^30 masks,
   * thirty-one give a negative bound and so no mask at all, and thirty-two
   * give 1 << 0, only the empty assignment.
   */
  lemma MaskCountWraps()
    ensures MaskCount(30) == 0x4000_0000
    ensures MaskCount(31) == 0
    ensures MaskCount(32) == 1
  {
    assert Pow2(5) == 32;
    Pow2Add(5, 5);
    assert Pow2(10) == 1024;
    Pow2Add(10, 10);
    assert Pow2(20) == 0x10_0000;
    Pow2Add(20, 10);
    assert Pow2(30) == 0x4000_0000;
    assert Pow2(31) == 0x8000_0000;
    assert ShiftOne(31) == Wrap32(0x8000_0000) == INT32_MIN;
    assert ShiftOne(32) == Wrap32(1) == 1;
  }

  /** Without clauses every part is selected. */
  lemma NoClausesSelectsAll(ids: seq<int>)
    ensures BooleanAssignment(ids, []) == Ok(set i | 0 <= i < |ids| :: ids[i])
  {
  }

  /**
   * With clauses and distinct encoded ids, the selection is the decoded first
   * largest satisfying assignment among the masks visited, and the search reports a
   * conflict exactly when no visited mask satisfies the clauses.
   */
  lemma BooleanAssignmentCorrect(ids: seq<int>, clauses: seq<seq<int>>)
    requires |clauses| > 0 && Distinct(EncodedKeys(ids))
    ensures BooleanAssignment(ids, clauses) == Err(ConflictFailure("SAT model is unsatisfiable.")) <==>
              !SomeSatisfying(clauses, ids, MaskCount(|ids|))
    ensures BooleanAssignment(ids, clauses).Ok? ==>
              exists best :: FirstLargest(clauses, ids, MaskCount(|ids|), best)
                             && BooleanAssignment(ids, clauses).value == Decode(best)
  {
    SearchCorrect(clauses, ids, MaskCount(|ids|));
  }

  /** A repeated encoded id is ToDictionary's ArgumentException, before any search. */
  lemma DuplicateEncodedIds(ids: seq<int>, clauses: seq<seq<int>>)
    requires |clauses| > 0 && !Distinct(EncodedKeys(ids))
    ensures BooleanAssignment(ids, clauses).Err? && BooleanAssignment(ids, clauses).error.Fault?
            && BooleanAssignment(ids, clauses).error.kind == "ArgumentException"
  {
  }

  // ---------------------------------------------------------------------
  // Plan steps and motion groups
  // ---------------------------------------------------------------------

  /** The steps built for the planned parts of an order. */
  predicate PlanFits(order: seq<int>, a: AssemblyModel, m: MotionModel, selected: Option<set<int>>, batch: int, st: PlanState)
  {
    var ps := PlannedParts(order, selected);
    && |st.steps| == |st.motions| == |ps|
    && forall k :: 0 <= k < |st.steps| ==>
         && st.steps[k].index == k
         && st.steps[k].part.indexId == ps[k]
         && st.steps[k].part in a.parts
         && st.steps[k].direction == st.motions[k]
         && IsMotionFeasible(m, ps[k], st.motions[k])
         && !st.steps[k].insert
         && st.steps[k].batch == batch
  }

  /** Every planned part has a position in the snapshot and a feasible motion. */
  predicate Plannable(ps: seq<int>, a: AssemblyModel, m: MotionModel)
  {
    forall k :: 0 <= k < |ps| ==> IndexToPosition(a, ps[k]).Some? && SelectMotion(m, ps[k]).Ok?
  }

  /**
   * BuildPlanSteps succeeds exactly when every planned part can be planned, and then
   * gives one step per planned part, in order, numbered from 0, each with a feasible motion.
   */
  lemma {:induction false} PlanStepsCorrect(order: seq<int>, a: AssemblyModel, m: MotionModel, selected: Option<set<int>>, batch: int)
    ensures PlanSteps(order, a, m, selected, batch).Ok? <==> Plannable(PlannedParts(order, selected), a, m)
    ensures PlanSteps(order, a, m, selected, batch).Ok? ==> PlanFits(order, a, m, selected, batch, PlanSteps(order, a, m, selected, batch).value)
    decreases |order|
  {
    if order != [] {
      var init := order[..|order| - 1];
      var p := order[|order| - 1];
      PlanStepsCorrect(init, a, m, selected, batch);
      var ps0 := PlannedParts(init, selected);
      var ps := PlannedParts(order, selected);
      if Planned(selected, p) {
        assert ps == ps0 + [p];
        assert Plannable(ps, a, m) <==> Plannable(ps0, a, m) && IndexToPosition(a, p).Some? && SelectMotion(m, p).Ok? by {
          if Plannable(ps0, a, m) && IndexToPosition(a, p).Some? && SelectMotion(m, p).Ok? {
            forall k | 0 <= k < |ps| ensures IndexToPosition(a, ps[k]).Some? && SelectMotion(m, ps[k]).Ok? {
              if k < |ps0| { assert ps[k] == ps0[k]; }
            }
          }
          if Plannable(ps, a, m) {
            forall k | 0 <= k < |ps0| ensures IndexToPosition(a, ps0[k]).Some? && SelectMotion(m, ps0[k]).Ok? {
              assert ps[k] == ps0[k];
            }
            assert ps[|ps0|] == p;
          }
        }
      }
    }
  }

  /** Without a selection the planned parts are the whole order; with one, the selected parts of it. */
  lemma {:induction false} PlannedPartsFacts(order: seq<int>, selected: Option<set<int>>)
    ensures selected.None? ==> PlannedParts(order, selected) == order
    ensures selected.Some? ==> forall k :: 0 <= k < |PlannedParts(order, selected)| ==>
              PlannedParts(order, selected)[k] in selected.value && PlannedParts(order, selected)[k] in order
    ensures selected.Some? ==> forall x :: x in order && x in selected.value ==> x in PlannedParts(order, selected)
    decreases |order|
  {
    if order != [] {
      var init := order[..|order| - 1];
      PlannedPartsFacts(init, selected);
      assert order == init + [order[|order| - 1]];
    }
  }

  /** The groups kept lie inside the selection, and without one every key gives a group. */
  lemma {:induction false} MotionGroupsFacts(keys: seq<string>, selected: Option<set<int>>)
    ensures MotionGroups(keys, selected).Ok? ==> |MotionGroups(keys, selected).value| <= |keys|
    ensures MotionGroups(keys, selected).Ok? && selected.None? ==> |MotionGroups(keys, selected).value| == |keys|
    ensures MotionGroups(keys, selected).Ok? && selected.Some? ==>
              forall g, i :: 0 <= g < |MotionGroups(keys, selected).value| && 0 <= i < |MotionGroups(keys, selected).value[g]| ==>
                MotionGroups(keys, selected).value[g][i] in selected.value
    decreases |keys|
  {
    if keys != [] {
      MotionGroupsFacts(keys[..|keys| - 1], selected);
    }
  }

  // ---------------------------------------------------------------------
  // The solve paths
  // ---------------------------------------------------------------------

  /** The feasible shape: one step per motion, numbered from 0, with the success line as the log. */
  predicate FeasibleShape(res: BackendResult)
  {
    && |res.steps| == |res.motions|
    && (forall k :: 0 <= k < |res.steps| ==> res.steps[k].index == k && res.steps[k].direction == res.motions[k])
    && res.log == SuccessLine(|res.steps|)
    && "stepCount" in res.metadata && res.metadata["stepCount"] == MetaInt(|res.steps|)
  }

  /** The plan of an order, as a feasible result: steps of the planned parts, and the metadata carried over. */
  lemma FinishShape(r: Request, order: seq<int>, selected: Option<set<int>>, metadata: map<string, Meta>, extra: map<string, Meta>)
    ensures var st := Finish(r, order, selected, metadata, extra);
      && (st.result.Ok? ==> st.result.value.outcome == Feasible && FeasibleShape(st.result.value)
                            && st.result.value.metadata == st.metadata
                            && |st.result.value.steps| == |PlannedParts(order, selected)|
                            && (forall k :: 0 <= k < |st.result.value.steps| ==>
                                  st.result.value.steps[k].part.indexId == PlannedParts(order, selected)[k]))
      && metadata.Keys <= st.metadata.Keys
      && (forall key :: key in metadata && key !in extra && key != "stepCount" ==> st.metadata[key] == metadata[key])
  {
    PlanStepsCorrect(order, r.assembly, r.constraints.motion, selected, 0);
  }

  /** A null request is ArgumentNullException; any other request is answered with a result. */
  lemma SolveNull(milpOrder: seq<int>, objective: real, r: Request)
    ensures Solve(None, milpOrder, objective) == Err(ArgumentNullException("request"))
    ensures Solve(Some(r), milpOrder, objective).Ok?
  {
  }

  /** A failed solve carries no steps, motions or groups; an Error result records the exception in the metadata. */
  lemma FailureShape(f: Failure, metadata: map<string, Meta>)
    ensures var res := FailureResult(f, metadata);
      && res.outcome != Feasible && res.steps == [] && res.motions == [] && res.groups == []
      && (f.ConflictFailure? <==> res.outcome == Conflict)
      && (f.InfeasibleFailure? <==> res.outcome == Infeasible)
      && (f.Fault? <==> res.outcome == Error)
      && (f.Fault? ==> res.log == "Backend error: " + f.message
                       && res.metadata["exception"] == MetaText(f.kind)
                       && res.metadata["exceptionMessage"] == MetaText(f.message))
      && (!f.Fault? ==> res.log == f.message && res.metadata == metadata)
      && metadata.Keys <= res.metadata.Keys
  {
  }

  /** The request's solver id in upper case selects the path. */
  predicate IsCsp(r: Request)
  {
    r.solverId.None? || (UpperAscii(r.solverId.value) != "MILP" && UpperAscii(r.solverId.value) != "SAT")
  }

  predicate IsSat(r: Request)
  {
    r.solverId.Some? && UpperAscii(r.solverId.value) == "SAT"
  }

  predicate IsMilp(r: Request)
  {
    r.solverId.Some? && UpperAscii(r.solverId.value) == "MILP"
  }

  lemma DispatchPath(r: Request, milpOrder: seq<int>, objective: real)
    ensures IsCsp(r) ==> Dispatch(r, milpOrder, objective) == SolveCsp(r, BaseMetadata(r))
    ensures IsSat(r) ==> Dispatch(r, milpOrder, objective) == SolveSat(r, BaseMetadata(r))
    ensures IsMilp(r) ==> Dispatch(r, milpOrder, objective) == SolveMilp(r, BaseMetadata(r), milpOrder, objective)
    ensures IsCsp(r) || IsSat(r) || IsMilp(r)
  {
  }

  /** What a solve path promises of its staged answer, given the mode it sets. */
  ghost predicate StagedShape(st: Staged, metadata: map<string, Meta>, mode: string)
  {
    && metadata.Keys + {"mode"} <= st.metadata.Keys
    && st.metadata["mode"] == MetaText(mode)
    && (st.result.Ok? ==> st.result.value.outcome == Feasible && FeasibleShape(st.result.value)
                          && st.result.value.metadata == st.metadata)
  }

  lemma CspShape(r: Request, metadata: map<string, Meta>)
    ensures StagedShape(SolveCsp(r, metadata), metadata, "CSP")
  {
    var meta := metadata["mode" := MetaText("CSP")];
    var g := DependencyGraphOf(r);
    if g.Ok? {
      var o := ResolveOrder(g.value.adjacency, g.value.implications, g.value.forbidden);
      if o.Ok? {
        var m2 := meta["expandedConstraints" := MetaInt(SumSizes(g.value.adjacency, g.value.adjacency.Keys))];
        FinishStaged(r, o.value, None, m2, map[], metadata, "CSP");
        var st := Finish(r, o.value, None, m2, map[]);
        if st.result.Ok? {
          var meta3 := st.metadata["dependencyCount" := MetaInt(g.value.dependencyCount)];
          assert "stepCount" in st.metadata && meta3["stepCount"] == st.metadata["stepCount"];
        }
      }
    }
  }

  /** Finish keeps the shape a solve path promises when the mode is already recorded. */
  lemma FinishStaged(r: Request, order: seq<int>, selected: Option<set<int>>, meta: map<string, Meta>,
                     extra: map<string, Meta>, metadata: map<string, Meta>, mode: string)
    requires metadata.Keys + {"mode"} <= meta.Keys && meta["mode"] == MetaText(mode) && "mode" !in extra
    ensures StagedShape(Finish(r, order, selected, meta, extra), metadata, mode)
  {
    FinishShape(r, order, selected, meta, extra);
  }

  lemma MilpShape(r: Request, metadata: map<string, Meta>, milpOrder: seq<int>, objective: real)
    ensures StagedShape(SolveMilp(r, metadata, milpOrder, objective), metadata, "MILP")
  {
    var meta := metadata["mode" := MetaText("MILP")];
    var g := DependencyGraphOf(r);
    if g.Ok? && ResolveWeightedOrder(g.value.adjacency, g.value.implications, g.value.forbidden, milpOrder).Ok? {
      FinishShape(r, milpOrder, None, meta["objective" := MetaReal(objective)], map[]);
    }
  }

  lemma SatShape(r: Request, metadata: map<string, Meta>)
    ensures StagedShape(SolveSat(r, metadata), metadata, "SAT")
  {
    var meta := metadata["mode" := MetaText("SAT")];
    var g := DependencyGraphOf(r);
    var cs := ExtractClauses(r.constraints.groupConstraints);
    if g.Ok? && cs.Ok? {
      var m2 := meta["cnfClauses" := MetaInt(|cs.value|)];
      var sel := BooleanAssignment(PartIds(r.assembly), cs.value);
      if sel.Ok? && sel.value != {} {
        var o := ResolveOrder(Filtered(g.value.adjacency, sel.value), g.value.implications, g.value.forbidden);
        if o.Ok? {
          FinishStaged(r, o.value, Some(sel.value), m2, map["selectedParts" := MetaText(SelectedText(sel.value))], metadata, "SAT");
        }
      }
    }
  }

  /**
   * Every answer of Solve: a feasible result has one step per motion, numbered from
   * 0, and the success line as its log; any other has no steps, motions or groups.
   * The base metadata and the path's mode are always recorded.
   */
  lemma SolveShape(r: Request, milpOrder: seq<int>, objective: real)
    ensures var res := Solve(Some(r), milpOrder, objective).value;
      && (res.outcome == Feasible ==> FeasibleShape(res))
      && (res.outcome != Feasible ==> res.steps == [] && res.motions == [] && res.groups == [])
      && BaseMetadata(r).Keys + {"mode"} <= res.metadata.Keys
      && (IsCsp(r) ==> res.metadata["mode"] == MetaText("CSP"))
      && (IsSat(r) ==> res.metadata["mode"] == MetaText("SAT"))
      && (IsMilp(r) ==> res.metadata["mode"] == MetaText("MILP"))
  {
    DispatchPath(r, milpOrder, objective);
    var meta := BaseMetadata(r);
    var mode := if IsCsp(r) then "CSP" else if IsSat(r) then "SAT" else "MILP";
    if IsCsp(r) {
      CspShape(r, meta);
    } else if IsSat(r) {
      SatShape(r, meta);
    } else {
      MilpShape(r, meta, milpOrder, objective);
    }
    var st := Dispatch(r, milpOrder, objective);
    AnswerShape(st, meta, mode);
    assert Solve(Some(r), milpOrder, objective).value == Answer(st);
  }

  /** The answer Solve builds from a staged result: the result itself, or the failure's result. */
  function Answer(st: Staged): BackendResult
  {
    if st.result.Ok? then st.result.value else FailureResult(st.result.error, st.metadata)
  }

  /** The answer to a staged result of a solve path keeps its shape and its mode. */
  lemma AnswerShape(st: Staged, metadata: map<string, Meta>, mode: string)
    requires StagedShape(st, metadata, mode)
    ensures var res := Answer(st);
      && (res.outcome == Feasible ==> FeasibleShape(res))
      && (res.outcome != Feasible ==> res.steps == [] && res.motions == [] && res.groups == [])
      && metadata.Keys + {"mode"} <= res.metadata.Keys
      && res.metadata["mode"] == MetaText(mode)
  {
    if st.result.Err? {
      FailureShape(st.result.error, st.metadata);
      var res := FailureResult(st.result.error, st.metadata);
      assert res.metadata["mode"] == st.metadata["mode"];
    }
  }

  /** The CSP path moves every part of the graph, in its smallest topological order. */
  lemma CspOrder(r: Request, metadata: map<string, Meta>)
    requires SolveCsp(r, metadata).result.Ok?
    ensures DependencyGraphOf(r).Ok? && HasTopoOrder(DependencyGraphOf(r).value.adjacency)
    ensures var res := SolveCsp(r, metadata).result.value;
      var order := LeastTopoOrder(DependencyGraphOf(r).value.adjacency);
      |res.steps| == |order| && forall k :: 0 <= k < |order| ==> res.steps[k].part.indexId == order[k]
  {
    var meta := metadata["mode" := MetaText("CSP")];
    var g := DependencyGraphOf(r).value;
    var order := ResolveOrder(g.adjacency, g.implications, g.forbidden).value;
    var m2 := meta["expandedConstraints" := MetaInt(SumSizes(g.adjacency, g.adjacency.Keys))];
    FinishShape(r, order, None, m2, map[]);
    PlannedPartsFacts(order, None);
  }

  /** Solve on the CSP path: a feasible answer steps through the smallest topological order of the graph. */
  lemma SolveCspOrder(r: Request, milpOrder: seq<int>, objective: real)
    requires IsCsp(r)
    requires Solve(Some(r), milpOrder, objective).value.outcome == Feasible
    ensures DependencyGraphOf(r).Ok? && HasTopoOrder(DependencyGraphOf(r).value.adjacency)
    ensures var res := Solve(Some(r), milpOrder, objective).value;
      var order := LeastTopoOrder(DependencyGraphOf(r).value.adjacency);
      |res.steps| == |order| && forall k :: 0 <= k < |order| ==> res.steps[k].part.indexId == order[k]
  {
    DispatchPath(r, milpOrder, objective);
    var st := SolveCsp(r, BaseMetadata(r));
    if st.result.Err? {
      FailureShape(st.result.error, st.metadata);
    }
    CspOrder(r, BaseMetadata(r));
  }

  /** A cyclic dependency graph is a conflict on the CSP path. */
  lemma CspCycle(r: Request, milpOrder: seq<int>, objective: real)
    requires IsCsp(r) && DependencyGraphOf(r).Ok? && !HasTopoOrder(DependencyGraphOf(r).value.adjacency)
    ensures Solve(Some(r), milpOrder, objective).value.outcome == Conflict
    ensures Solve(Some(r), milpOrder, objective).value.log == CycleMessage
  {
    DispatchPath(r, milpOrder, objective);
  }

  /** A cyclic graph makes the MILP path answer Conflict as well, whatever order the weighted loop gives. */
  lemma MilpCycle(r: Request, milpOrder: seq<int>, objective: real)
    requires IsMilp(r) && DependencyGraphOf(r).Ok? && !HasTopoOrder(DependencyGraphOf(r).value.adjacency)
    ensures Solve(Some(r), milpOrder, objective).value.outcome == Conflict
    ensures Solve(Some(r), milpOrder, objective).value.log == CycleMessage
  {
    DispatchPath(r, milpOrder, objective);
  }

  /** The SAT path moves only selected parts of a non-empty satisfying selection. */
  lemma SatSelection(r: Request, metadata: map<string, Meta>)
    requires SolveSat(r, metadata).result.Ok?
    ensures ExtractClauses(r.constraints.groupConstraints).Ok?
    ensures var sel := BooleanAssignment(PartIds(r.assembly), ExtractClauses(r.constraints.groupConstraints).value);
      var res := SolveSat(r, metadata).result.value;
      && sel.Ok? && sel.value != {}
      && (forall k :: 0 <= k < |res.steps| ==> res.steps[k].part.indexId in sel.value)
      && "selectedParts" in res.metadata && res.metadata["selectedParts"] == MetaText(SelectedText(sel.value))
  {
    var meta := metadata["mode" := MetaText("SAT")];
    var g := DependencyGraphOf(r);
    assert g.Ok?;
    var cs := ExtractClauses(r.constraints.groupConstraints);
    assert cs.Ok?;
    var m2 := meta["cnfClauses" := MetaInt(|cs.value|)];
    var sel := BooleanAssignment(PartIds(r.assembly), cs.value);
    assert sel.Ok? && sel.value != {};
    var o := ResolveOrder(Filtered(g.value.adjacency, sel.value), g.value.implications, g.value.forbidden);
    assert o.Ok?;
    var extra := map["selectedParts" := MetaText(SelectedText(sel.value))];
    assert SolveSat(r, metadata) == Finish(r, o.value, Some(sel.value), m2, extra);
    FinishShape(r, o.value, Some(sel.value), m2, extra);
    PlannedPartsFacts(o.value, Some(sel.value));
  }
}
