// The mesh repair pipeline of the AssemblyChain.Geometry project: grouping
// naked-edge index pairs into loops, the simpler hole triangulation, and a
// hole-filling pass whose loop list is always empty.

module GeometryMeshRepair {
  import opened Common
  import opened Meshes

  // ---------------------------------------------------------------------
  // GroupNakedEdgesIntoLoops
  // ---------------------------------------------------------------------

  /** The edge at array position j (even) links the two ends of a loop, in either direction. */
  predicate Connects(e: seq<int>, j: int, first: int, last: int)
    requires 0 <= j && j + 1 < |e|
  {
    (first == e[j + 1] && last == e[j]) || (first == e[j] && last == e[j + 1])
  }

  /** The unprocessed edges, other than the seed at i, that link the seed's two ends. */
  function Copies(e: seq<int>, i: int, done: set<int>): set<int>
    requires 0 <= i && i + 1 < |e|
  {
    CopiesBelow(e, i, done, |e|)
  }

  /** The copies at positions below n, collected one position at a time. */
  function CopiesBelow(e: seq<int>, i: int, done: set<int>, n: nat): set<int>
    requires 0 <= i && i + 1 < |e| && n <= |e|
  {
    if n == 0 then {}
    else
      var j := n - 1;
      CopiesBelow(e, i, done, j) + if j + 1 < |e| && j % 2 == 0 && j !in done && Connects(e, j, e[i], e[i + 1]) then {j} else {}
  }

  /** How many copies there are, counted the same way. */
  function CopyCount(e: seq<int>, i: int, done: set<int>): nat
    requires 0 <= i && i + 1 < |e|
  {
    CountBelow(e, i, done, |e|)
  }

  function CountBelow(e: seq<int>, i: int, done: set<int>, n: nat): nat
    requires 0 <= i && i + 1 < |e| && n <= |e|
  {
    if n == 0 then 0
    else
      var j := n - 1;
      CountBelow(e, i, done, j) + if j + 1 < |e| && j % 2 == 0 && j !in done && Connects(e, j, e[i], e[i + 1]) then 1 else 0
  }

  lemma {:induction false} CountBelowIsCard(e: seq<int>, i: int, done: set<int>, n: nat)
    requires 0 <= i && i + 1 < |e| && n <= |e|
    ensures |CopiesBelow(e, i, done, n)| == CountBelow(e, i, done, n)
  {
    if n > 0 {
      CountBelowIsCard(e, i, done, n - 1);
      CopiesBelowMembers(e, i, done, n - 1);
    }
  }

  lemma CopyCountIsCard(e: seq<int>, i: int, done: set<int>)
    requires 0 <= i && i + 1 < |e|
    ensures |Copies(e, i, done)| == CopyCount(e, i, done)
  {
    CountBelowIsCard(e, i, done, |e|);
  }

  lemma {:induction false} CopiesBelowMembers(e: seq<int>, i: int, done: set<int>, n: nat)
    requires 0 <= i && i + 1 < |e| && n <= |e|
    ensures forall j :: j in CopiesBelow(e, i, done, n) <==>
      (0 <= j < n && j + 1 < |e| && j % 2 == 0 && j !in done && Connects(e, j, e[i], e[i + 1]))
  {
    if n > 0 {
      CopiesBelowMembers(e, i, done, n - 1);
    }
  }

  /** The copies are exactly the unprocessed even positions whose edge links the seed's two ends. */
  lemma CopiesMembers(e: seq<int>, i: int, done: set<int>)
    requires 0 <= i && i + 1 < |e|
    ensures forall j :: j in Copies(e, i, done) <==>
      (0 <= j && j + 1 < |e| && j % 2 == 0 && j !in done && Connects(e, j, e[i], e[i + 1]))
  {
    CopiesBelowMembers(e, i, done, |e|);
  }

  /** The pair a, b written c times. */
  function Repeat(a: int, b: int, c: nat): (r: seq<int>)
    ensures |r| == 2 * c
  {
    if c == 0 then [] else [a, b] + Repeat(a, b, c - 1)
  }

  lemma {:induction false} RepeatAt(a: int, b: int, c: nat, q: int)
    requires 0 <= q < 2 * c
    ensures Repeat(a, b, c)[q] == if q % 2 == 0 then a else b
  {
    if q >= 2 {
      RepeatAt(a, b, c - 1, q - 2);
      assert Repeat(a, b, c)[q] == Repeat(a, b, c - 1)[q - 2];
    }
  }

  lemma RepeatEnds(a: int, b: int, c: nat)
    requires c >= 1
    ensures Repeat(a, b, c)[0] == a && Repeat(a, b, c)[2 * c - 1] == b
  {
    RepeatAt(a, b, c, 0);
    RepeatAt(a, b, c, 2 * c - 1);
  }

  /** The loops found from array position i on, given the positions already processed (seeds are the even positions). */
  function GroupFrom(e: seq<int>, i: int, done: set<int>): seq<seq<int>>
    requires 0 <= i
    decreases |e| - i
  {
    if i + 1 >= |e| then []
    else if i in done then GroupFrom(e, i + 2, done)
    else
      var copies := Copies(e, i, done + {i});
      var loop := Repeat(e[i], e[i + 1], 1 + CopyCount(e, i, done + {i}));
      (if |loop| >= 4 then [loop] else []) + GroupFrom(e, i + 2, done + {i} + copies)
  }

  /** An array of odd length makes the method read past its end. */
  const IndexOutOfRange := "Index was outside the bounds of the array."

  function GroupedLoops(e: seq<int>): Result<seq<seq<int>>, string>
  {
    if |e| % 2 != 0 then Err(IndexOutOfRange) else Ok(GroupFrom(e, 0, {}))
  }

  /** Processed agrees with done on the even positions, the only ones the method asks about. */
  predicate Tracks(e: seq<int>, processed: set<int>, done: set<int>)
  {
    forall j :: 0 <= j < |e| && j % 2 == 0 ==> (j in processed <==> j in done)
  }

  /** Marking an edge processed marks its even position and the odd one after it. */
  lemma TracksMark(e: seq<int>, processed: set<int>, done: set<int>, j: int)
    requires Tracks(e, processed, done) && j % 2 == 0
    ensures Tracks(e, processed + {j, j + 1}, done + {j})
  {
    assert (j + 1) % 2 == 1;
  }

  /** One pass of the inner for loop: the first unprocessed edge linking the loop's ends is put in front, or nothing changes. */
  method ExtendOnce(e: seq<int>, loop: seq<int>, processed: set<int>)
    returns (newLoop: seq<int>, newProcessed: set<int>, extended: bool, ghost j0: int)
    requires |e| % 2 == 0 && |loop| >= 2
    ensures extended ==>
      && 0 <= j0 && j0 + 1 < |e| && j0 % 2 == 0 && j0 !in processed
      && Connects(e, j0, loop[0], loop[|loop| - 1])
      && newLoop == [loop[0], loop[|loop| - 1]] + loop
      && newProcessed == processed + {j0, j0 + 1}
    ensures !extended ==>
      && newLoop == loop && newProcessed == processed
      && forall j :: 0 <= j && j + 1 < |e| && j % 2 == 0 && j !in processed ==> !Connects(e, j, loop[0], loop[|loop| - 1])
  {
    newLoop, newProcessed, extended, j0 := loop, processed, false, 0;
    var j := 0;
    while j < |e|
      invariant 0 <= j <= |e| && j % 2 == 0
      invariant forall k :: 0 <= k < j && k % 2 == 0 && k !in processed ==> !Connects(e, k, loop[0], loop[|loop| - 1])
    {
      if j in processed {
        j := j + 2;
        continue;
      }
      var edgeStart := e[j];
      var edgeEnd := e[j + 1];
      if loop[0] == edgeEnd && loop[|loop| - 1] == edgeStart {
        // Insert edgeStart, then edgeEnd, at the front.
        newLoop := [edgeEnd, edgeStart] + loop;
        newProcessed := processed + {j, j + 1};
        extended, j0 := true, j;
        return;
      } else if loop[|loop| - 1] == edgeStart && loop[0] == edgeEnd {
        // "Insert at end": the same test as the first branch.
        assert false;
      } else if loop[0] == edgeStart && loop[|loop| - 1] == edgeEnd {
        // Insert edgeEnd, then edgeStart, at the front.
        newLoop := [edgeStart, edgeEnd] + loop;
        newProcessed := processed + {j, j + 1};
        extended, j0 := true, j;
        return;
      } else if loop[|loop| - 1] == edgeEnd && loop[0] == edgeStart {
        // "Reverse and insert at end": the same test as the third branch.
        assert false;
      }
      j := j + 2;
    }
  }

  /** The seed edge at i and the while (extended) loop around ExtendOnce. */
  method GrowLoop(e: seq<int>, i: int, processed: set<int>, ghost done: set<int>)
    returns (loop: seq<int>, newProcessed: set<int>, ghost copies: set<int>)
    requires |e| % 2 == 0 && 0 <= i && i + 1 < |e| && i % 2 == 0
    requires Tracks(e, processed, done) && i !in done
    ensures copies == Copies(e, i, done + {i})
    ensures loop == Repeat(e[i], e[i + 1], 1 + |copies|)
    ensures Tracks(e, newProcessed, done + {i} + copies)
    ensures processed + {i, i + 1} <= newProcessed
  {
    ghost var d := done + {i};
    ghost var all := Copies(e, i, d);
    loop := [e[i], e[i + 1]];
    newProcessed := processed + {i, i + 1};
    TracksMark(e, processed, done, i);
    copies := {};
    var extended := true;
    while extended
      invariant Tracks(e, newProcessed, d + copies)
      invariant copies <= all
      invariant loop == Repeat(e[i], e[i + 1], 1 + |copies|)
      invariant !extended ==> all <= copies
      invariant processed + {i, i + 1} <= newProcessed
      decreases |all - copies| + (if extended then 1 else 0)
    {
      loop, newProcessed, extended, copies := GrowOnce(e, i, loop, newProcessed, d, copies);
    }
  }

  /** One turn of the while (extended) loop: an unprocessed copy of the seed edge is put in front, or none is left. */
  method GrowOnce(e: seq<int>, i: int, loop: seq<int>, processed: set<int>, ghost d: set<int>, ghost copies: set<int>)
    returns (newLoop: seq<int>, newProcessed: set<int>, extended: bool, ghost newCopies: set<int>)
    requires |e| % 2 == 0 && 0 <= i && i + 1 < |e| && i % 2 == 0
    requires Tracks(e, processed, d + copies) && copies <= Copies(e, i, d)
    requires loop == Repeat(e[i], e[i + 1], 1 + |copies|)
    ensures Tracks(e, newProcessed, d + newCopies) && newCopies <= Copies(e, i, d)
    ensures newLoop == Repeat(e[i], e[i + 1], 1 + |newCopies|)
    ensures extended ==> |Copies(e, i, d) - newCopies| < |Copies(e, i, d) - copies|
    ensures !extended ==> newCopies == copies && Copies(e, i, d) <= copies
    ensures extended ==> newLoop == [e[i], e[i + 1]] + loop && processed < newProcessed
    ensures !extended ==> newLoop == loop && newProcessed == processed
  {
    ghost var all := Copies(e, i, d);
    RepeatEnds(e[i], e[i + 1], 1 + |copies|);
    ghost var j;
    newLoop, newProcessed, extended, j := ExtendOnce(e, loop, processed);
    if extended {
      CopyFound(e, i, d, copies, processed, j);
      GrowRepeat(e[i], e[i + 1], copies, j);
      newCopies := copies + {j};
    } else {
      newCopies := copies;
      NoCopyLeft(e, i, d, copies, processed);
    }
  }

  /** One more copy puts the pair once more in front. */
  lemma GrowRepeat(a: int, b: int, copies: set<int>, j: int)
    requires j !in copies
    ensures [a, b] + Repeat(a, b, 1 + |copies|) == Repeat(a, b, 1 + |copies + {j}|)
  {
    assert |copies + {j}| == |copies| + 1;
  }

  lemma CopyFound(e: seq<int>, i: int, d: set<int>, copies: set<int>, processed: set<int>, j: int)
    requires 0 <= i && i + 1 < |e| && 0 <= j && j + 1 < |e| && j % 2 == 0 && j !in processed
    requires Tracks(e, processed, d + copies) && copies <= Copies(e, i, d)
    requires Connects(e, j, e[i], e[i + 1])
    ensures j !in copies && copies + {j} <= Copies(e, i, d)
    ensures |Copies(e, i, d) - (copies + {j})| < |Copies(e, i, d) - copies|
    ensures Tracks(e, processed + {j, j + 1}, d + (copies + {j}))
  {
    var all := Copies(e, i, d);
    CopiesMembers(e, i, d);
    assert j in all - copies;
    assert (all - (copies + {j})) == (all - copies) - {j};
    TracksMark(e, processed, d + copies, j);
    assert d + copies + {j} == d + (copies + {j});
  }

  lemma NoCopyLeft(e: seq<int>, i: int, d: set<int>, copies: set<int>, processed: set<int>)
    requires 0 <= i && i + 1 < |e|
    requires Tracks(e, processed, d + copies)
    requires forall j :: 0 <= j && j + 1 < |e| && j % 2 == 0 && j !in processed ==> !Connects(e, j, e[i], e[i + 1])
    ensures Copies(e, i, d) <= copies
  {
    CopiesMembers(e, i, d);
    forall k | k in Copies(e, i, d) ensures k in copies {
      assert k in processed;
      assert k in d + copies;
    }
  }

  /** GroupFrom with the loops found so far carried along, as the method's outer loop builds them. */
  function GroupAcc(e: seq<int>, i: int, done: set<int>, acc: seq<seq<int>>): seq<seq<int>>
    requires 0 <= i
    decreases |e| - i
  {
    if i + 1 >= |e| then acc
    else if i in done then GroupAcc(e, i + 2, done, acc)
    else
      var copies := Copies(e, i, done + {i});
      var loop := Repeat(e[i], e[i + 1], 1 + CopyCount(e, i, done + {i}));
      GroupAcc(e, i + 2, done + {i} + copies, if |loop| >= 4 then acc + [loop] else acc)
  }

  lemma {:induction false} GroupAccIs(e: seq<int>, i: int, done: set<int>, acc: seq<seq<int>>)
    requires 0 <= i
    ensures GroupAcc(e, i, done, acc) == acc + GroupFrom(e, i, done)
    decreases |e| - i
  {
    if i + 1 >= |e| {
      assert acc + [] == acc;
    } else if i in done {
      GroupAccIs(e, i + 2, done, acc);
    } else {
      var copies := Copies(e, i, done + {i});
      var loop := Repeat(e[i], e[i + 1], 1 + CopyCount(e, i, done + {i}));
      var head := if |loop| >= 4 then [loop] else [];
      GroupAccIs(e, i + 2, done + {i} + copies, acc + head);
      AppendAssoc(acc, head, GroupFrom(e, i + 2, done + {i} + copies));
      assert head == [] ==> acc + head == acc;
    }
  }

  /** GroupNakedEdgesIntoLoops: each unprocessed even position seeds a loop; a loop of four entries or more is kept. */
  method GroupNakedEdgesIntoLoops(nakedEdges: seq<int>, tolerance: real) returns (r: Result<seq<seq<int>>, string>)
    ensures r == GroupedLoops(nakedEdges)
  {
    if |nakedEdges| % 2 != 0 {
      return Err(IndexOutOfRange);
    }
    var loops: seq<seq<int>> := [];
    var processed: set<int> := {};
    ghost var done: set<int> := {};
    var i := 0;
    while i < |nakedEdges|
      invariant 0 <= i <= |nakedEdges| && i % 2 == 0
      invariant Tracks(nakedEdges, processed, done)
      invariant GroupAcc(nakedEdges, i, done, loops) == GroupAcc(nakedEdges, 0, {}, [])
      decreases |nakedEdges| - i
    {
      EvenStep(i, |nakedEdges|);
      loops, processed, done := SeedTurn(nakedEdges, i, loops, processed, done);
      i := i + 2;
    }
    GroupAccIs(nakedEdges, 0, {}, []);
    assert [] + GroupFrom(nakedEdges, 0, {}) == GroupFrom(nakedEdges, 0, {});
    return Ok(loops);
  }

  /** The next seed position is even, and the pair at an even position below an even length is whole. */
  lemma EvenStep(i: int, n: int)
    requires i % 2 == 0 && n % 2 == 0 && i < n
    ensures i + 1 < n && (i + 2) % 2 == 0
  {
  }

  lemma NextEven(i: int)
    requires i % 2 == 0
    ensures (i + 2) % 2 == 0
  {
  }

  /** The body of the outer for loop for the seed position i. */
  method SeedTurn(e: seq<int>, i: int, loops: seq<seq<int>>, processed: set<int>, ghost done: set<int>)
    returns (newLoops: seq<seq<int>>, newProcessed: set<int>, ghost newDone: set<int>)
    requires |e| % 2 == 0 && 0 <= i && i + 1 < |e| && i % 2 == 0
    requires Tracks(e, processed, done)
    ensures Tracks(e, newProcessed, newDone)
    ensures GroupAcc(e, i + 2, newDone, newLoops) == GroupAcc(e, i, done, loops)
    ensures i in processed ==> newLoops == loops && newProcessed == processed
    ensures i !in processed ==> |loops| <= |newLoops| <= |loops| + 1 && newLoops[..|loops|] == loops && processed < newProcessed
  {
    if i in processed {
      return loops, processed, done;
    }
    var loop, marked, copies := GrowLoop(e, i, processed, done);
    CopyCountIsCard(e, i, done + {i});
    newLoops := loops;
    if |loop| >= 4 {
      newLoops := newLoops + [loop];
    }
    newProcessed, newDone := marked, done + {i} + copies;
  }

  // ---------------------------------------------------------------------
  // What the grouping returns
  // ---------------------------------------------------------------------

  /** A loop of four entries or more that is one edge of the array written again and again. */
  predicate RepeatedEdge(e: seq<int>, l: seq<int>)
  {
    && |l| >= 4 && |l| % 2 == 0
    && (forall q :: 0 <= q < |l| ==> l[q] == if q % 2 == 0 then l[0] else l[1])
    && exists k :: 0 <= k && k + 1 < |e| && k % 2 == 0 && e[k] == l[0] && e[k + 1] == l[1]
  }

  lemma {:induction false} GroupFromShape(e: seq<int>, i: int, done: set<int>)
    requires 0 <= i && i % 2 == 0
    ensures forall l :: l in GroupFrom(e, i, done) ==> RepeatedEdge(e, l)
    decreases |e| - i
  {
    if i + 1 < |e| {
      NextEven(i);
      if i in done {
        GroupFromShape(e, i + 2, done);
      } else {
        GroupFromShape(e, i + 2, done + {i} + Copies(e, i, done + {i}));
        SeedShape(e, i, done);
      }
    }
  }

  /** The seed's loop, when kept, is its edge repeated; the loops after it are so already. */
  lemma SeedShape(e: seq<int>, i: int, done: set<int>)
    requires 0 <= i && i + 1 < |e| && i % 2 == 0 && i !in done
    requires forall l :: l in GroupFrom(e, i + 2, done + {i} + Copies(e, i, done + {i})) ==> RepeatedEdge(e, l)
    ensures forall l :: l in GroupFrom(e, i, done) ==> RepeatedEdge(e, l)
  {
    var copies := Copies(e, i, done + {i});
    var loop := Repeat(e[i], e[i + 1], 1 + CopyCount(e, i, done + {i}));
    var head := if |loop| >= 4 then [loop] else [];
    var rest := GroupFrom(e, i + 2, done + {i} + copies);
    if |loop| >= 4 {
      RepeatShape(e, i, 1 + CopyCount(e, i, done + {i}));
    }
    assert GroupFrom(e, i, done) == head + rest;
    forall l | l in head + rest ensures RepeatedEdge(e, l) {
      if l !in rest {
        assert l == loop;
      }
    }
  }

  lemma RepeatShape(e: seq<int>, i: int, c: nat)
    requires 0 <= i && i + 1 < |e| && i % 2 == 0 && c >= 2
    ensures RepeatedEdge(e, Repeat(e[i], e[i + 1], c))
  {
    var loop := Repeat(e[i], e[i + 1], c);
    RepeatAt(e[i], e[i + 1], c, 0);
    RepeatAt(e[i], e[i + 1], c, 1);
    forall q | 0 <= q < |loop| ensures loop[q] == if q % 2 == 0 then loop[0] else loop[1] {
      RepeatAt(e[i], e[i + 1], c, q);
    }
  }

  /** The even positions not yet processed. */
  function Available(e: seq<int>, done: set<int>): set<int>
  {
    set j | 0 <= j && j + 1 < |e| && j % 2 == 0 && j !in done
  }

  function TotalLength(loops: seq<seq<int>>): nat
  {
    if loops == [] then 0 else |loops[0]| + TotalLength(loops[1..])
  }

  lemma TotalLengthConcat(a: seq<seq<int>>, b: seq<seq<int>>)
    ensures TotalLength(a + b) == TotalLength(a) + TotalLength(b)
  {
    if a != [] {
      assert (a + b)[0] == a[0];
      assert (a + b)[1..] == a[1..] + b;
      TotalLengthConcat(a[1..], b);
    } else {
      assert a + b == b;
    }
  }

  /** Each edge pair is used by at most one loop: the loops hold two entries per available edge at most. */
  lemma {:induction false} GroupFromUsesEachEdgeOnce(e: seq<int>, i: int, done: set<int>)
    requires 0 <= i && i % 2 == 0
    ensures TotalLength(GroupFrom(e, i, done)) <= 2 * |Available(e, done)|
    decreases |e| - i
  {
    if i + 1 < |e| {
      NextEven(i);
      if i in done {
        GroupFromUsesEachEdgeOnce(e, i + 2, done);
      } else {
        GroupFromUsesEachEdgeOnce(e, i + 2, done + {i} + Copies(e, i, done + {i}));
        SeedUsesCopies(e, i, done);
        SeedLength(e, i, done);
        CopyCountIsCard(e, i, done + {i});
      }
    }
  }

  /** The seed adds its loop's length, if kept, to the loops after it. */
  lemma SeedLength(e: seq<int>, i: int, done: set<int>)
    requires 0 <= i && i + 1 < |e| && i !in done
    ensures TotalLength(GroupFrom(e, i, done)) <= 2 * (1 + CopyCount(e, i, done + {i}))
      + TotalLength(GroupFrom(e, i + 2, done + {i} + Copies(e, i, done + {i})))
  {
    var copies := Copies(e, i, done + {i});
    var loop := Repeat(e[i], e[i + 1], 1 + CopyCount(e, i, done + {i}));
    var rest := GroupFrom(e, i + 2, done + {i} + copies);
    TotalLengthConcat(if |loop| >= 4 then [loop] else [], rest);
    assert TotalLength([loop]) == |loop| by {
      assert [loop][1..] == [];
    }
  }

  /** A seed and its copies leave the available edges together. */
  lemma SeedUsesCopies(e: seq<int>, i: int, done: set<int>)
    requires 0 <= i && i + 1 < |e| && i % 2 == 0 && i !in done
    ensures |Available(e, done + {i} + Copies(e, i, done + {i}))| == |Available(e, done)| - (1 + |Copies(e, i, done + {i})|)
  {
    var copies := Copies(e, i, done + {i});
    CopiesMembers(e, i, done + {i});
    var used := {i} + copies;
    assert used <= Available(e, done);
    assert Available(e, done + {i} + copies) == Available(e, done) - used;
    assert |Available(e, done) - used| == |Available(e, done)| - |used|;
    assert |used| == 1 + |copies|;
  }

  /** The grouping fails exactly on an odd-length array; otherwise every loop it returns is one edge repeated, at
      least twice, and no edge pair is used twice, so the loops hold no more entries than the array. */
  lemma GroupedLoopsFacts(e: seq<int>)
    ensures GroupedLoops(e).Err? <==> |e| % 2 != 0
    ensures GroupedLoops(e).Ok? ==>
      && (forall l :: l in GroupedLoops(e).value ==> RepeatedEdge(e, l))
      && TotalLength(GroupedLoops(e).value) <= |e|
  {
    if |e| % 2 == 0 {
      GroupFromShape(e, 0, {});
      GroupFromUsesEachEdgeOnce(e, 0, {});
      assert forall j :: j in Available(e, {}) ==> 0 <= j < |e|;
      AvailableBound(e);
    }
  }

  lemma AvailableBound(e: seq<int>)
    requires |e| % 2 == 0
    ensures 2 * |Available(e, {})| <= |e|
    decreases |e|
  {
    if |e| > 0 {
      var e' := e[..|e| - 2];
      AvailableBound(e');
      assert Available(e, {}) == Available(e', {}) + {|e| - 2};
    }
  }

  /** The edge at k repeats the edge at j, in either direction. */
  predicate SameEdge(e: seq<int>, j: int, k: int)
    requires 0 <= j && j + 1 < |e| && 0 <= k && k + 1 < |e|
  {
    Connects(e, k, e[j], e[j + 1])
  }

  predicate DistinctEdges(e: seq<int>)
  {
    forall j, k :: 0 <= j < k && k + 1 < |e| && j % 2 == 0 && k % 2 == 0 ==> !SameEdge(e, j, k)
  }

  /** Edges that are all different, even up to direction, give no loop at all: the guards ask an edge to link both
      ends of the loop, which only another copy of the seed edge does. */
  lemma {:induction false} DistinctEdgesGiveNoLoops(e: seq<int>, i: int, done: set<int>)
    requires 0 <= i && i % 2 == 0
    requires DistinctEdges(e)
    ensures GroupFrom(e, i, done) == []
    decreases |e| - i
  {
    if i + 1 < |e| {
      NextEven(i);
      if i in done {
        DistinctEdgesGiveNoLoops(e, i + 2, done);
      } else {
        NoCopiesOfDistinct(e, i, done + {i});
        CopyCountIsCard(e, i, done + {i});
        DistinctEdgesGiveNoLoops(e, i + 2, done + {i} + Copies(e, i, done + {i}));
      }
    }
  }

  lemma NoCopiesOfDistinct(e: seq<int>, i: int, d: set<int>)
    requires 0 <= i && i + 1 < |e| && i % 2 == 0 && i in d
    requires DistinctEdges(e)
    ensures Copies(e, i, d) == {}
  {
    CopiesMembers(e, i, d);
    forall j | 0 <= j && j + 1 < |e| && j % 2 == 0 && j !in d ensures !Connects(e, j, e[i], e[i + 1]) {
      if j < i {
        assert !SameEdge(e, j, i);
      } else {
        assert !SameEdge(e, i, j);
      }
    }
  }

  /** A triangle's three boundary edges, each listed once, are not grouped into a loop. */
  lemma TriangleBoundaryGivesNoLoop()
    ensures GroupedLoops([0, 1, 1, 2, 2, 0]) == Ok([])
  {
    DistinctEdgesGiveNoLoops([0, 1, 1, 2, 2, 0], 0, {});
  }

  // ---------------------------------------------------------------------
  // TryFillHole
  // ---------------------------------------------------------------------

  /** The faces TryFillHole adds: a triangle for four entries, a four-index face for six, a fan otherwise. */
  function HoleFaces(loop: seq<int>): seq<MeshFace>
  {
    if |loop| == 4 then [Triangle(loop[0], loop[1], loop[2])]
    else if |loop| == 6 then [MeshFace(loop[0], loop[1], loop[2], loop[3])]
    else Fan(loop)
  }

  /** Four entries give one triangle of the first three, six give one face of the first four, any other count n
      gives max(0, n - 2) fan triangles; each corner is an entry of the loop. */
  lemma HoleFacesFacts(loop: seq<int>)
    ensures |HoleFaces(loop)| == if |loop| == 4 || |loop| == 6 then 1 else if |loop| < 2 then 0 else |loop| - 2
    ensures |loop| == 4 ==> HoleFaces(loop) == [Triangle(loop[0], loop[1], loop[2])]
    ensures |loop| == 6 ==> HoleFaces(loop)[0] == MeshFace(loop[0], loop[1], loop[2], loop[3])
    ensures |loop| != 4 && |loop| != 6 ==> forall k :: 0 <= k < |loop| - 2 ==>
      HoleFaces(loop)[k] == Triangle(loop[0], loop[k + 1], loop[k + 2])
    ensures forall f, x :: f in HoleFaces(loop) && x in Indices(f) ==> x in loop
  {
    forall f, x | f in HoleFaces(loop) && x in Indices(f) ensures x in loop {
      if |loop| != 4 && |loop| != 6 {
        var k :| 0 <= k < |Fan(loop)| && Fan(loop)[k] == f;
        FanFacts(loop, k);
      }
    }
  }

  /** Filling a loop the grouping returns would only ever use the two vertices of its edge. */
  lemma GroupedLoopFacesUseOneEdge(e: seq<int>, l: seq<int>)
    requires RepeatedEdge(e, l)
    ensures forall f, x :: f in HoleFaces(l) && x in Indices(f) ==> x == l[0] || x == l[1]
  {
    HoleFacesFacts(l);
    forall f, x | f in HoleFaces(l) && x in Indices(f) ensures x == l[0] || x == l[1] {
      var q :| 0 <= q < |l| && l[q] == x;
    }
  }

  /** TryFillHole: a missing loop fails, adding nothing; any other loop gets HoleFaces and succeeds. */
  method TryFillHole(mesh: Mesh, loop: Option<seq<int>>) returns (ok: bool)
    modifies mesh
    ensures ok <==> loop.Some?
    ensures mesh.faces == old(mesh.faces) + (if ok then HoleFaces(loop.value) else [])
  {
    if loop.None? {
      return false;
    }
    var l := loop.value;
    if |l| == 4 {
      mesh.faces := mesh.faces + [Triangle(l[0], l[1], l[2])];
      return true;
    } else if |l| == 6 {
      mesh.faces := mesh.faces + [MeshFace(l[0], l[1], l[2], l[3])];
      return true;
    } else {
      AddFan(mesh, l);
      return true;
    }
  }

  /** The fan loop: triangles (loop[0], loop[i - 1], loop[i]) for i from 2. */
  method AddFan(mesh: Mesh, l: seq<int>)
    modifies mesh
    ensures mesh.faces == old(mesh.faces) + Fan(l)
  {
    ghost var fan := Fan(l);
    if |l| < 2 {
      return;
    }
    for i := 2 to |l|
      invariant mesh.faces == old(mesh.faces) + fan[..i - 2]
    {
      assert fan[..i - 1] == fan[..i - 2] + [fan[i - 2]];
      mesh.faces := mesh.faces + [Triangle(l[0], l[i - 1], l[i])];
    }
    assert fan[..|fan|] == fan;
  }

  // ---------------------------------------------------------------------
  // FillMeshHoles and RepairMesh
  // ---------------------------------------------------------------------

  /** What FillMeshHoles leaves: at a closed mesh a warning, otherwise nothing at all, because the list of loops it
      walks is created empty. */
  function FillStage<T>(s: RepairState, nakedEdges: Option<seq<T>>): RepairState
  {
    if NoNakedEdges(nakedEdges) then s.(warnings := s.warnings + [ClosedMeshWarning]) else s
  }

  /** Hole filling never adds a face or counts a hole. */
  lemma FillStageFacts<T>(s: RepairState, nakedEdges: Option<seq<T>>)
    ensures var r := FillStage(s, nakedEdges);
      && r.faces == s.faces && r.holesFilled == s.holesFilled && r.errors == s.errors
      && |r.warnings| <= |s.warnings| + 1
  {
  }

  method FillMeshHoles<T>(mesh: Mesh, result: RepairResult, options: RepairOptions, nakedEdges: Option<seq<T>>)
    modifies mesh, result
    ensures StateOf(mesh, result) == FillStage(old(StateOf(mesh, result)), nakedEdges)
  {
    if nakedEdges.None? || |nakedEdges.value| == 0 {
      result.warnings := result.warnings + [ClosedMeshWarning];
      return;
    }
    var edgeLoops: seq<seq<int>> := [];
    // The foreach over edgeLoops has no iteration: the list is created empty.
    // The face count is unchanged, so the "Filled ... holes" summary is never added.
  }

  function RepairOutcome<T>(faces: seq<MeshFace>, options: Option<RepairOptions>, nakedEdges: Option<seq<T>>): RepairState
  {
    var o := OptionsOrDefault(options);
    var s0 := InitialState(faces);
    var s1 := if o.fillHoles then FillStage(s0, nakedEdges) else s0;
    var s2 := if o.removeDuplicateFaces then RemoveDuplicatesStage(s1) else s1;
    var s3 := if o.healNakedEdges then HealStage(s2) else s2;
    s3.(success := |s3.errors| == 0)
  }

  /** RepairMesh, with the same stage order and flags as the other copy. */
  method RepairMesh<T>(mesh: Mesh, options: Option<RepairOptions>, nakedEdges: Option<seq<T>>) returns (result: RepairResult)
    modifies mesh
    ensures fresh(result)
    ensures StateOf(mesh, result) == RepairOutcome(old(mesh.faces), options, nakedEdges)
  {
    var o := if options.None? then DefaultRepairOptions else options.value;
    result := new RepairResult();
    if o.fillHoles {
      FillMeshHoles(mesh, result, o, nakedEdges);
    }
    if o.fixNonManifoldEdges {
      FixNonManifoldEdges(mesh, result);
    }
    if o.removeDuplicateFaces {
      RemoveDuplicateFaces(mesh, result);
    }
    if o.healNakedEdges {
      HealNakedEdges(mesh, result);
    }
    result.success := |result.errors| == 0;
  }

  /** This copy's repair always succeeds and never fills a hole; the faces it keeps are the first of each signature
      when removal is on, and all the original faces otherwise. */
  lemma RepairOutcomeFacts<T>(faces: seq<MeshFace>, options: Option<RepairOptions>, nakedEdges: Option<seq<T>>)
    ensures var r := RepairOutcome(faces, options, nakedEdges);
      var o := OptionsOrDefault(options);
      && r.success && r.errors == [] && r.holesFilled == 0
      && r.faces == (if o.removeDuplicateFaces then FirstOfEach(faces, Signature) else faces)
      && (o.removeDuplicateFaces ==> Distinct(MapSeq(r.faces, Signature)))
  {
    var o := OptionsOrDefault(options);
    var s1 := if o.fillHoles then FillStage(InitialState(faces), nakedEdges) else InitialState(faces);
    RemoveDuplicatesFacts(s1);
  }
}
