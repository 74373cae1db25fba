// Lexicographic combination generation, as both GenerateCombinations
// iterators do it: an index array starts at 0, 1, ..., k-1; after each
// selection the last index below its maximum is bumped and the indices after
// it are reset to consecutive values. The reference is the recursive list of
// all increasing index selections; the loop is proved to walk it exactly.
module Combinations {
  import opened Common

  // ---------------------------------------------------------------------
  // Index selections
  // ---------------------------------------------------------------------

  /** Each entry is below the next. */
  predicate Increasing(c: seq<int>)
  {
    forall q :: 0 <= q < |c| - 1 ==> c[q] < c[q + 1]
  }

  /** Every entry lies in [lo, n). */
  predicate Within(c: seq<int>, lo: int, n: int)
  {
    forall q :: 0 <= q < |c| ==> lo <= c[q] < n
  }

  /** lo, lo + 1, ..., lo + len - 1. */
  function Run(lo: int, len: nat): (r: seq<int>)
    ensures |r| == len
    ensures forall q :: 0 <= q < len ==> r[q] == lo + q
  {
    seq(len, q => lo + q)
  }

  function Prefixed(x: int, cs: seq<seq<int>>): (r: seq<seq<int>>)
    ensures |r| == |cs|
    ensures forall i :: 0 <= i < |cs| ==> r[i] == [x] + cs[i]
  {
    seq(|cs|, i requires 0 <= i < |cs| => [x] + cs[i])
  }

  /**
   * The increasing selections of k indices from [lo, n) in lexicographic
   * order: those starting with lo, then those starting above it.
   */
  function CombosFrom(lo: int, n: int, k: nat): seq<seq<int>>
    decreases k, n - lo
  {
    if k == 0 then [[]]
    else if lo + k > n then []
    else Prefixed(lo, CombosFrom(lo + 1, n, k - 1)) + CombosFrom(lo + 1, n, k)
  }

  /** The number of k-element subsets of an m-element set (Pascal's rule). */
  function Binomial(m: nat, k: nat): nat
  {
    if k == 0 then 1
    else if m == 0 then 0
    else Binomial(m - 1, k - 1) + Binomial(m - 1, k)
  }

  // ---------------------------------------------------------------------
  // The loop step
  // ---------------------------------------------------------------------

  /**
   * The inner while loop: the largest position below m whose index is not
   * at its maximum n - |c| + q, or -1.
   */
  function Pivot(c: seq<int>, n: int, m: nat): (j: int)
    requires m <= |c|
    ensures -1 <= j < m
    ensures j >= 0 ==> c[j] != n - |c| + j
    ensures forall q :: j < q < m ==> c[q] == n - |c| + q
  {
    if m == 0 then -1
    else if c[m - 1] != n - |c| + (m - 1) then m - 1
    else Pivot(c, n, m - 1)
  }

  /** The rest of the loop body: the next selection, or None when every index is at its maximum. */
  function Next(c: seq<int>, n: int): Option<seq<int>>
  {
    var j := Pivot(c, n, |c|);
    if j < 0 then None else Some(c[..j] + Run(c[j] + 1, |c| - j))
  }

  /** Only the last selection, n - k, ..., n - 1, has no successor. */
  lemma NextNone(c: seq<int>, n: int)
    ensures Next(c, n).None? <==> c == Run(n - |c|, |c|)
  {
    var j := Pivot(c, n, |c|);
    if j < 0 {
      assert c == Run(n - |c|, |c|);
    }
  }

  lemma {:induction false} PivotCons(x: int, t: seq<int>, n: int, m: nat)
    requires m <= |t|
    ensures Pivot([x] + t, n, m + 1) ==
      if Pivot(t, n, m) >= 0 then Pivot(t, n, m) + 1
      else if x != n - |t| - 1 then 0 else -1
  {
    var c := [x] + t;
    if m > 0 {
      assert c[m] == t[m - 1];
      PivotCons(x, t, n, m - 1);
    }
  }

  /** Below a fixed first index the step works on the rest; past the rest's last selection it bumps the first. */
  lemma NextCons(x: int, t: seq<int>, n: int)
    ensures Next(t, n).Some? ==> Next([x] + t, n) == Some([x] + Next(t, n).value)
    ensures Next(t, n).None? ==> Next([x] + t, n) == if x != n - |t| - 1 then Some(Run(x + 1, |t| + 1)) else None
  {
    var c := [x] + t;
    PivotCons(x, t, n, |t|);
    var jt := Pivot(t, n, |t|);
    if jt >= 0 {
      assert c[..jt + 1] == [x] + t[..jt];
      assert c[jt + 1] == t[jt];
      AppendAssoc([x], t[..jt], Run(t[jt] + 1, |t| - jt));
    } else if x != n - |t| - 1 {
      assert c[..0] == [] && c[0] == x;
      assert c[..0] + Run(c[0] + 1, |c|) == Run(x + 1, |t| + 1);
    }
  }

  /** A successor is lexicographically greater. */
  lemma NextGreater(c: seq<int>, n: int)
    requires Next(c, n).Some?
    ensures LexLess(c, Next(c, n).value)
  {
    var j := Pivot(c, n, |c|);
    assert LessAt(c, Next(c, n).value, j);
  }

  // ---------------------------------------------------------------------
  // Lexicographic order
  // ---------------------------------------------------------------------

  /** a and b agree before position p and a is smaller at p. */
  predicate LessAt(a: seq<int>, b: seq<int>, p: nat)
  {
    p < |a| && p < |b| && a[p] < b[p] && forall q :: 0 <= q < p ==> a[q] == b[q]
  }

  ghost predicate LexLess(a: seq<int>, b: seq<int>)
  {
    |a| == |b| && exists p :: LessAt(a, b, p)
  }

  lemma LexTrans(a: seq<int>, b: seq<int>, c: seq<int>)
    requires LexLess(a, b) && LexLess(b, c)
    ensures LexLess(a, c)
  {
    var p :| LessAt(a, b, p);
    var q :| LessAt(b, c, q);
    if p <= q {
      assert LessAt(a, c, p);
    } else {
      assert LessAt(a, c, q);
    }
  }

  // ---------------------------------------------------------------------
  // Facts about the reference list
  // ---------------------------------------------------------------------

  /** Every selection has k indices, increasing, in [lo, n). */
  lemma {:induction false} CombosShape(lo: int, n: int, k: nat, i: nat)
    requires i < |CombosFrom(lo, n, k)|
    ensures var c := CombosFrom(lo, n, k)[i]; |c| == k && Increasing(c) && Within(c, lo, n)
    decreases k, n - lo
  {
    if k > 0 {
      var a := CombosFrom(lo + 1, n, k - 1);
      if i < |a| {
        CombosShape(lo + 1, n, k - 1, i);
        var c := [lo] + a[i];
        assert CombosFrom(lo, n, k)[i] == c;
        forall q | 0 <= q < |c| - 1 ensures c[q] < c[q + 1] {
          if q > 0 {
            assert c[q] == a[i][q - 1] && c[q + 1] == a[i][q];
          }
        }
      } else {
        CombosShape(lo + 1, n, k, i - |a|);
      }
    }
  }

  /** The selections are those of the whole range. */
  lemma CombosWithinAll(n: int, k: nat)
    ensures forall i :: 0 <= i < |CombosFrom(0, n, k)| ==> Within(CombosFrom(0, n, k)[i], 0, n)
  {
    forall i | 0 <= i < |CombosFrom(0, n, k)| ensures Within(CombosFrom(0, n, k)[i], 0, n) {
      CombosShape(0, n, k, i);
    }
  }

  lemma {:induction false} BinomialBeyond(m: nat, k: nat)
    requires k > m
    ensures Binomial(m, k) == 0
  {
    if m > 0 {
      BinomialBeyond(m - 1, k - 1);
      BinomialBeyond(m - 1, k);
    }
  }

  /** There are C(n - lo, k) selections. */
  lemma {:induction false} CombosCount(lo: int, n: int, k: nat)
    requires lo <= n
    ensures |CombosFrom(lo, n, k)| == Binomial(n - lo, k)
    decreases k, n - lo
  {
    if k > 0 {
      if lo + k > n {
        BinomialBeyond(n - lo, k);
      } else {
        CombosCount(lo + 1, n, k - 1);
        CombosCount(lo + 1, n, k);
      }
    }
  }

  /** An increasing sequence climbs by at least one per position. */
  lemma {:induction false} IncreasingGap(c: seq<int>, q: nat)
    requires Increasing(c) && q < |c|
    ensures c[q] >= c[0] + q
  {
    if q > 0 {
      IncreasingGap(c, q - 1);
    }
  }

  /** Every increasing selection of k indices from [lo, n) is in the list. */
  lemma {:induction false} CombosComplete(lo: int, n: int, k: nat, c: seq<int>)
    requires |c| == k && Increasing(c) && Within(c, lo, n)
    ensures c in CombosFrom(lo, n, k)
    decreases k, n - lo, 1
  {
    if k > 0 {
      IncreasingGap(c, k - 1);
      if c[0] == lo {
        CompleteFromLo(lo, n, k, c);
      } else {
        CompleteAboveLo(lo, n, k, c);
      }
    }
  }

  /** A selection starting at lo is among those that CombosFrom lists first. */
  lemma {:induction false} CompleteFromLo(lo: int, n: int, k: nat, c: seq<int>)
    requires k > 0 && lo + k <= n
    requires |c| == k && Increasing(c) && Within(c, lo, n) && c[0] == lo
    ensures c in CombosFrom(lo, n, k)
    decreases k, n - lo, 0
  {
    var first := Prefixed(lo, CombosFrom(lo + 1, n, k - 1));
    assert CombosFrom(lo, n, k) == first + CombosFrom(lo + 1, n, k);
    TailSelection(lo, n, c);
    CombosComplete(lo + 1, n, k - 1, c[1..]);
    PrefixedHas(lo, CombosFrom(lo + 1, n, k - 1), c[1..]);
    assert [lo] + c[1..] == c;
    InConcat(c, first, CombosFrom(lo + 1, n, k));
  }

  /** A selection starting above lo is among those that CombosFrom lists after them. */
  lemma {:induction false} CompleteAboveLo(lo: int, n: int, k: nat, c: seq<int>)
    requires k > 0 && lo + k <= n
    requires |c| == k && Increasing(c) && Within(c, lo, n) && c[0] != lo
    ensures c in CombosFrom(lo, n, k)
    decreases k, n - lo, 0
  {
    var first := Prefixed(lo, CombosFrom(lo + 1, n, k - 1));
    assert CombosFrom(lo, n, k) == first + CombosFrom(lo + 1, n, k);
    ShiftSelection(lo, n, c);
    CombosComplete(lo + 1, n, k, c);
    InConcat(c, first, CombosFrom(lo + 1, n, k));
  }

  /** Dropping the first index lo of a selection from [lo, n) leaves a selection from [lo + 1, n). */
  lemma TailSelection(lo: int, n: int, c: seq<int>)
    requires |c| > 0 && Increasing(c) && Within(c, lo, n) && c[0] == lo
    ensures Increasing(c[1..]) && Within(c[1..], lo + 1, n)
  {
    var t := c[1..];
    forall q | 0 <= q < |t| ensures lo + 1 <= t[q] < n {
      IncreasingGap(c, q + 1);
    }
    forall q | 0 <= q < |t| - 1 ensures t[q] < t[q + 1] {
      assert t[q] == c[q + 1] && t[q + 1] == c[q + 2];
    }
  }

  /** A selection from [lo, n) that does not start at lo is a selection from [lo + 1, n). */
  lemma ShiftSelection(lo: int, n: int, c: seq<int>)
    requires |c| > 0 && Increasing(c) && Within(c, lo, n) && c[0] != lo
    ensures Within(c, lo + 1, n)
  {
    forall q | 0 <= q < |c| ensures lo + 1 <= c[q] < n {
      IncreasingGap(c, q);
    }
  }

  lemma InConcat<T>(x: T, a: seq<T>, b: seq<T>)
    requires x in a || x in b
    ensures x in a + b
  {
  }

  lemma PrefixedHas(x: int, cs: seq<seq<int>>, t: seq<int>)
    requires t in cs
    ensures [x] + t in Prefixed(x, cs)
  {
    var i :| 0 <= i < |cs| && cs[i] == t;
    assert Prefixed(x, cs)[i] == [x] + t;
  }

  /** With lo + k <= n the first selection is lo, ..., lo + k - 1. */
  lemma {:induction false} FirstIsRun(lo: int, n: int, k: nat)
    requires lo + k <= n
    ensures |CombosFrom(lo, n, k)| > 0 && CombosFrom(lo, n, k)[0] == Run(lo, k)
    decreases k
  {
    if k > 0 {
      FirstIsRun(lo + 1, n, k - 1);
      assert [lo] + Run(lo + 1, k - 1) == Run(lo, k);
    }
  }

  /** The loop's step walks the list: each selection's successor is the next one, and the last has none. */
  lemma {:induction false} NextWalks(lo: int, n: int, k: nat, i: nat)
    requires i < |CombosFrom(lo, n, k)|
    ensures var cs := CombosFrom(lo, n, k);
      Next(cs[i], n) == if i + 1 < |cs| then Some(cs[i + 1]) else None
    decreases k, n - lo
  {
    var cs := CombosFrom(lo, n, k);
    if k == 0 {
      assert cs[i] == [];
    } else {
      var a := CombosFrom(lo + 1, n, k - 1);
      var rest := CombosFrom(lo + 1, n, k);
      assert cs == Prefixed(lo, a) + rest;
      if i < |a| {
        NextWalks(lo + 1, n, k - 1, i);
        CombosShape(lo + 1, n, k - 1, i);
        NextCons(lo, a[i], n);
        assert cs[i] == [lo] + a[i];
        if i + 1 < |a| {
          assert cs[i + 1] == [lo] + a[i + 1];
        } else {
          NextNone(a[i], n);
          if lo + 1 + k <= n {
            FirstIsRun(lo + 1, n, k);
            assert cs[i + 1] == rest[0];
          } else {
            assert rest == [];
          }
        }
      } else {
        NextWalks(lo + 1, n, k, i - |a|);
        assert cs[i] == rest[i - |a|];
        if i + 1 < |cs| {
          assert cs[i + 1] == rest[i + 1 - |a|];
        }
      }
    }
  }

  /** The list is in strictly increasing lexicographic order. */
  lemma CombosSorted(lo: int, n: int, k: nat, i: nat, j: nat)
    requires i < j < |CombosFrom(lo, n, k)|
    ensures LexLess(CombosFrom(lo, n, k)[i], CombosFrom(lo, n, k)[j])
  {
    var cs := CombosFrom(lo, n, k);
    forall t | 0 <= t < |cs| - 1 ensures LexLess(cs[t], cs[t + 1]) {
      NextWalks(lo, n, k, t);
      NextGreater(cs[t], n);
    }
    ChainSorted(cs, i, j);
  }

  /** A list whose neighbours increase is increasing throughout. */
  lemma {:induction false} ChainSorted(cs: seq<seq<int>>, i: nat, j: nat)
    requires i < j < |cs|
    requires forall t :: 0 <= t < |cs| - 1 ==> LexLess(cs[t], cs[t + 1])
    ensures LexLess(cs[i], cs[j])
    decreases j - i
  {
    if i + 1 < j {
      ChainSorted(cs, i + 1, j);
      LexTrans(cs[i], cs[i + 1], cs[j]);
    }
  }

  // ---------------------------------------------------------------------
  // GenerateCombinations
  // ---------------------------------------------------------------------

  /** indices.Select(i => items[i]). */
  function Pick(items: seq<int>, c: seq<int>): (r: seq<int>)
    requires Within(c, 0, |items|)
    ensures |r| == |c|
  {
    seq(|c|, q requires 0 <= q < |c| => items[c[q]])
  }

  predicate AllWithin(cs: seq<seq<int>>, n: int)
  {
    forall i :: 0 <= i < |cs| ==> Within(cs[i], 0, n)
  }

  function PickAll(items: seq<int>, cs: seq<seq<int>>): (r: seq<seq<int>>)
    requires AllWithin(cs, |items|)
    ensures |r| == |cs|
  {
    if cs == [] then []
    else
      AllWithinPrefix(cs, |items|, |cs| - 1);
      PickAll(items, cs[..|cs| - 1]) + [Pick(items, cs[|cs| - 1])]
  }

  lemma {:induction false} PickAllAt(items: seq<int>, cs: seq<seq<int>>, i: nat)
    requires AllWithin(cs, |items|) && i < |cs|
    ensures PickAll(items, cs)[i] == Pick(items, cs[i])
  {
    if i < |cs| - 1 {
      var init := cs[..|cs| - 1];
      assert AllWithin(init, |items|) by {
        forall k | 0 <= k < |init| ensures Within(init[k], 0, |items|) {
          assert init[k] == cs[k];
        }
      }
      PickAllAt(items, init, i);
    }
  }

  /** What the iterator yields: nothing for size <= 0 or fewer items than size, else every selection in order. */
  function CombinationsOf(items: seq<int>, size: int): seq<seq<int>>
  {
    if size <= 0 || |items| < size then []
    else
      CombosWithinAll(|items|, size);
      PickAll(items, CombosFrom(0, |items|, size))
  }

  lemma AllWithinPrefix(cs: seq<seq<int>>, n: int, t: nat)
    requires AllWithin(cs, n) && t < |cs|
    ensures AllWithin(cs[..t + 1], n) && AllWithin(cs[..t], n)
    ensures cs[..t + 1][..t] == cs[..t] && cs[..t + 1][t] == cs[t]
  {
    assert forall i :: 0 <= i < t + 1 ==> cs[..t + 1][i] == cs[i];
  }

  /** The loop body after the yield: find the pivot, bump it and reset the indices after it; true when there is none. */
  method Advance(indices: array<int>, n: int) returns (done: bool)
    modifies indices
    ensures done <==> Next(old(indices[..]), n).None?
    ensures done ==> indices[..] == old(indices[..])
    ensures !done ==> indices[..] == Next(old(indices[..]), n).value
  {
    var size := indices.Length;
    var j := size - 1;
    while j >= 0 && indices[j] == n - size + j
      invariant -1 <= j < size
      invariant Pivot(indices[..], n, size) == Pivot(indices[..], n, j + 1)
    {
      j := j - 1;
    }
    if j < 0 {
      return true;
    }
    ghost var before := indices[..];
    indices[j] := indices[j] + 1;
    for k := j + 1 to size
      invariant forall q :: 0 <= q < j ==> indices[q] == before[q]
      invariant forall q :: j <= q < k ==> indices[q] == before[j] + 1 + (q - j)
    {
      indices[k] := indices[k - 1] + 1;
    }
    assert indices[..] == before[..j] + Run(before[j] + 1, size - j);
    return false;
  }

  /** GenerateCombinations: the yields of the iterator, collected. */
  method GenerateCombinations(items: seq<int>, size: int) returns (r: seq<seq<int>>)
    ensures r == CombinationsOf(items, size)
  {
    r := [];
    if size <= 0 || |items| < size {
      return;
    }
    var n := |items|;
    var indices := new int[size];
    for i := 0 to size
      invariant forall q :: 0 <= q < i ==> indices[q] == q
    {
      indices[i] := i;
    }
    ghost var all := CombosFrom(0, n, size);
    CombosWithinAll(n, size);
    FirstIsRun(0, n, size);
    assert indices[..] == Run(0, size);
    ghost var t := 0;
    while true
      invariant 0 <= t < |all|
      invariant indices[..] == all[t]
      invariant AllWithin(all[..t], n) && r == PickAll(items, all[..t])
      decreases |all| - t
    {
      AllWithinPrefix(all, n, t);
      r := r + [Pick(items, indices[..])];
      assert r == PickAll(items, all[..t + 1]);
      NextWalks(0, n, size, t);
      var done := Advance(indices, n);
      if done {
        assert t + 1 == |all|;
        PrefixWhole(all);
        return;
      }
      t := t + 1;
    }
  }

  /**
   * The combinations: none when size <= 0 or too few items; otherwise
   * C(n, size) of them, the i-th picking the items at the i-th index
   * selection, where the selections are exactly the increasing ones and
   * come in strictly increasing lexicographic order.
   */
  lemma CombinationsFacts(items: seq<int>, size: int, i: nat, j: nat)
    ensures size <= 0 || |items| < size ==> CombinationsOf(items, size) == []
    ensures 0 < size <= |items| ==>
      var cs := CombosFrom(0, |items|, size);
      && |CombinationsOf(items, size)| == |cs| == Binomial(|items|, size)
      && (i < |cs| ==> AllWithin(cs, |items|) && CombinationsOf(items, size)[i] == Pick(items, cs[i]))
      && (i < |cs| ==> |cs[i]| == size && Increasing(cs[i]))
      && (i < j < |cs| ==> LexLess(cs[i], cs[j]))
  {
    if 0 < size <= |items| {
      var cs := CombosFrom(0, |items|, size);
      CombosCount(0, |items|, size);
      CombosWithinAll(|items|, size);
      if i < |cs| {
        PickAllAt(items, cs, i);
        CombosShape(0, |items|, size, i);
      }
      if i < j < |cs| {
        CombosSorted(0, |items|, size, i, j);
      }
    }
  }
}
