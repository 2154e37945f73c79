/** The values that TAXII content-binding checks work on. */
module Bindings {
  import opened Wrappers

  /** A content binding as a service declares it: a binding identifier and
      the subtype identifiers it covers.  An empty `subtypes` covers every
      subtype of the identifier.  The source keeps `subtypes` as a list; only
      its emptiness, membership and intersection are ever used, so a set is
      the same thing here. */
  datatype ContentBinding = ContentBinding(binding: string, subtypes: set<string>)

  /** What a caller asks a service about: a bare binding identifier (a
      string, as TAXII 1.0 messages carry it) or a TAXII 1.1 binding object
      with `binding_id` and an ordered list `subtype_ids`. */
  datatype Candidate =
    | Plain(id: string)
    | Structured(bindingId: string, subtypeIds: seq<string>)

  /** The value compared with each entry's `binding`, and the subtype looked
      for.  `binding == None` stands for a structured binding object being
      compared as a whole: such an object equals no string. */
  datatype Lookup = Lookup(binding: Option<string>, subtype: Option<string>)

  /** How a candidate is read: a bare value, or any candidate under version
      10, is taken whole with no subtype; otherwise the `binding_id` and the
      first of its `subtype_ids`, if there is one. */
  function LookupOf(candidate: Candidate, version: Option<int>): (key: Lookup)
    ensures candidate.Plain? ==> key == Lookup(Some(candidate.id), None)
    ensures candidate.Structured? && version == Some(10) ==> key.binding == None
    ensures key.subtype.Some? <==>
      candidate.Structured? && version != Some(10) && |candidate.subtypeIds| > 0
    ensures candidate.Structured? && version != Some(10) ==>
      key.binding == Some(candidate.bindingId) &&
      (key.subtype.Some? ==> key.subtype.value == candidate.subtypeIds[0])
  {
    if candidate.Plain? then
      Lookup(Some(candidate.id), None)
    else if version == Some(10) then
      Lookup(None, None)
    else
      Lookup(Some(candidate.bindingId),
             if |candidate.subtypeIds| > 0 then Some(candidate.subtypeIds[0]) else None)
  }

  /** A declared entry covers a subtype when it lists it or lists none. */
  predicate Covers(entry: ContentBinding, subtype: Option<string>)
  {
    entry.subtypes == {} || (subtype.Some? && subtype.value in entry.subtypes)
  }

  /** One element of the list of matches: the identifiers are equal and the
      entry covers the subtype. */
  predicate Matches(entry: ContentBinding, key: Lookup)
  {
    key.binding == Some(entry.binding) && Covers(entry, key.subtype)
  }

  /** Python's `any` over a list of booleans. */
  function Any(xs: seq<bool>): (r: bool)
    ensures r <==> exists i :: 0 <= i < |xs| && xs[i]
  {
    if xs == [] then false
    else if xs[0] then true
    else
      var r := Any(xs[1..]);
      assert forall i :: 1 <= i < |xs| ==> xs[i] == xs[1..][i - 1];
      r
  }
}
