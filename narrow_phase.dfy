// The outcome of a narrow-phase contact detection pass, and how two outcomes
// merge: success needs both, zones and diagnostics concatenate, and the
// right-hand metadata wins on shared keys.
module NarrowPhase {
  import opened Common

  /** A contact zone; the Rhino geometry it describes is an opaque handle. */
  datatype ContactZone = ContactZone(geometry: nat, area: real, length: real, volume: real)

  datatype NarrowPhaseResult = NarrowPhaseResult(
    isSuccessful: bool, zones: seq<ContactZone>, metadata: map<string, Meta>, diagnostics: seq<string>)

  function OrEmpty<T>(xs: Option<seq<T>>): seq<T>
  {
    if xs.None? then [] else xs.value
  }

  function OrNoEntries(m: Option<map<string, Meta>>): map<string, Meta>
  {
    if m.None? then map[] else m.value
  }

  /** A failed result carries no zones; both factories keep this. */
  predicate WellFormed(r: NarrowPhaseResult)
  {
    !r.isSuccessful ==> r.zones == []
  }

  /** NarrowPhaseResult.Success: absent arguments become empty collections. */
  function Success(zones: Option<seq<ContactZone>>, metadata: Option<map<string, Meta>>, diagnostics: Option<seq<string>>)
    : (r: NarrowPhaseResult)
    ensures r.isSuccessful && WellFormed(r)
    ensures r.zones == OrEmpty(zones) && r.metadata == OrNoEntries(metadata) && r.diagnostics == OrEmpty(diagnostics)
  {
    NarrowPhaseResult(true, OrEmpty(zones), OrNoEntries(metadata), OrEmpty(diagnostics))
  }

  /** NarrowPhaseResult.Failure: no zones, the given diagnostics and metadata. */
  function Failure(diagnostics: Option<seq<string>>, metadata: Option<map<string, Meta>>): (r: NarrowPhaseResult)
    ensures !r.isSuccessful && r.zones == [] && WellFormed(r)
    ensures r.metadata == OrNoEntries(metadata) && r.diagnostics == OrEmpty(diagnostics)
  {
    NarrowPhaseResult(false, [], OrNoEntries(metadata), OrEmpty(diagnostics))
  }

  /** One copying loop: each entry of src is written over dict. */
  method CopyEntries(dict0: map<string, Meta>, src: map<string, Meta>) returns (dict: map<string, Meta>)
    ensures dict == dict0 + src
  {
    dict := dict0;
    var rest := src.Keys;
    while rest != {}
      invariant rest <= src.Keys
      invariant forall k :: k in dict <==> k in dict0 || (k in src && k !in rest)
      invariant forall k :: k in src && k !in rest ==> dict[k] == src[k]
      invariant forall k :: k in dict0 && (k !in src || k in rest) ==> dict[k] == dict0[k]
      decreases |rest|
    {
      var k :| k in rest;
      dict := dict[k := src[k]];
      rest := rest - {k};
    }
    assert dict.Keys == (dict0 + src).Keys;
    assert forall k :: k in dict ==> dict[k] == (dict0 + src)[k];
  }

  /**
   * MergeMetadata: copy the left entries, then the right ones over them.
   * The key of a right entry is rendered with string interpolation, which
   * leaves a string unchanged.
   */
  method MergeMetadata(left: map<string, Meta>, right: map<string, Meta>) returns (dict: map<string, Meta>)
    ensures dict.Keys == left.Keys + right.Keys
    ensures forall k :: k in right ==> dict[k] == right[k]
    ensures forall k :: k in left && k !in right ==> dict[k] == left[k]
    ensures dict == left + right
  {
    dict := CopyEntries(map[], left);
    assert map[] + left == left;
    dict := CopyEntries(dict, right);
  }

  /** NarrowPhaseResult.Merge; an absent other result counts as a bare failure. */
  function Merge(self: NarrowPhaseResult, other: Option<NarrowPhaseResult>): (r: NarrowPhaseResult)
    ensures var o := if other.None? then Failure(None, None) else other.value;
      && (r.isSuccessful <==> self.isSuccessful && o.isSuccessful)
      && (r.isSuccessful ==> r.zones == self.zones + o.zones)
      && (!r.isSuccessful ==> r.zones == [])
      && r.diagnostics == self.diagnostics + o.diagnostics
      && r.metadata.Keys == self.metadata.Keys + o.metadata.Keys
      && (forall k :: k in o.metadata ==> r.metadata[k] == o.metadata[k])
      && (forall k :: k in self.metadata && k !in o.metadata ==> r.metadata[k] == self.metadata[k])
  {
    var o := if other.None? then Failure(None, None) else other.value;
    if o.isSuccessful && self.isSuccessful then
      Success(Some(self.zones + o.zones), Some(self.metadata + o.metadata), Some(self.diagnostics + o.diagnostics))
    else
      Failure(Some(self.diagnostics + o.diagnostics), Some(self.metadata + o.metadata))
  }

  /** Merging is associative. */
  lemma MergeAssociative(a: NarrowPhaseResult, b: NarrowPhaseResult, c: NarrowPhaseResult)
    ensures Merge(Merge(a, Some(b)), Some(c)) == Merge(a, Some(Merge(b, Some(c))))
  {
    var left := Merge(Merge(a, Some(b)), Some(c));
    var right := Merge(a, Some(Merge(b, Some(c))));
    assert left.diagnostics == right.diagnostics;
    assert left.metadata == right.metadata;
    if a.isSuccessful && b.isSuccessful && c.isSuccessful {
      assert left.zones == right.zones;
    }
  }

  /** An empty success is a neutral element for well-formed results. */
  lemma MergeNeutral(a: NarrowPhaseResult)
    requires WellFormed(a)
    ensures Merge(a, Some(Success(None, None, None))) == a
    ensures Merge(Success(None, None, None), Some(a)) == a
  {
    var e := Success(None, None, None);
    assert Merge(a, Some(e)).metadata == a.metadata;
    assert Merge(e, Some(a)).metadata == a.metadata;
    assert a.diagnostics + [] == a.diagnostics && [] + a.diagnostics == a.diagnostics;
    assert a.zones + [] == a.zones && [] + a.zones == a.zones;
  }

  /** Merging with an absent or failed result always fails and keeps no zones. */
  lemma MergeWithFailure(a: NarrowPhaseResult, diagnostics: Option<seq<string>>, metadata: Option<map<string, Meta>>)
    ensures !Merge(a, None).isSuccessful && Merge(a, None).zones == []
    ensures !Merge(a, Some(Failure(diagnostics, metadata))).isSuccessful
    ensures Merge(a, Some(Failure(diagnostics, metadata))).diagnostics == a.diagnostics + OrEmpty(diagnostics)
  {
  }
}
