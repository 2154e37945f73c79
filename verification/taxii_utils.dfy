/** opentaxii/taxii/utils.py: its copy of the content-binding support check
    and the negotiation of content bindings between a request and a service. */
module TaxiiUtils {
  import opened Wrappers
  import opened Bindings
  import Utils

  /* ---------------------------------------------------------------------
     is_content_supported (the second copy)
     --------------------------------------------------------------------- */

  /** Whether a service that declares `supported` accepts `candidate`. */
  function IsContentSupported(supported: seq<ContentBinding>, candidate: Candidate,
                              version: Option<int>): (r: bool)
    ensures r <==> exists i :: 0 <= i < |supported| && Matches(supported[i], LookupOf(candidate, version))
  {
    var key := LookupOf(candidate, version);
    var matches := seq(|supported|, i requires 0 <= i < |supported| => Matches(supported[i], key));
    assert forall i :: 0 <= i < |supported| ==> matches[i] == Matches(supported[i], key);
    Any(matches)
  }

  /** This copy decides exactly as the one in opentaxii/utils.py. */
  lemma SameAsUtilsCopy(supported: seq<ContentBinding>, candidate: Candidate, version: Option<int>)
    ensures IsContentSupported(supported, candidate, version) ==
            Utils.IsContentSupported(supported, candidate, version)
  {
  }

  /* ---------------------------------------------------------------------
     content_bindings_intersection: specification
     --------------------------------------------------------------------- */

  /** The entry emitted for a requested and a supported binding with the
      same identifier: the requested one when the supported one covers
      every subtype, else the supported one when the requested one names no
      subtype, else the common subtypes. */
  function Merge(requested: ContentBinding, supported: ContentBinding): (m: ContentBinding)
    requires requested.binding == supported.binding
    ensures m.binding == requested.binding
    ensures m.subtypes != {} ==>
      forall x :: x in m.subtypes <==> Covers(requested, Some(x)) && Covers(supported, Some(x))
    ensures m.subtypes == {} <==>
      (requested.subtypes == {} && supported.subtypes == {}) ||
      (requested.subtypes != {} && supported.subtypes != {} && requested.subtypes * supported.subtypes == {})
  {
    if supported.subtypes == {} then requested
    else if requested.subtypes == {} then supported
    else ContentBinding(requested.binding, supported.subtypes * requested.subtypes)
  }

  /** What one (requested, supported) pair adds to the overlap. */
  function PairOverlap(requested: ContentBinding, supported: ContentBinding): seq<ContentBinding>
  {
    if requested.binding != supported.binding then [] else [Merge(requested, supported)]
  }

  /** What one requested binding adds, over the supported ones in order. */
  function RowOverlap(requested: ContentBinding, supported: seq<ContentBinding>): seq<ContentBinding>
  {
    if supported == [] then []
    else RowOverlap(requested, supported[..|supported| - 1]) + PairOverlap(requested, supported[|supported| - 1])
  }

  /** The overlap of the requested bindings, in order, with the supported ones. */
  function Overlap(requested: seq<ContentBinding>, supported: seq<ContentBinding>): seq<ContentBinding>
  {
    if requested == [] then []
    else Overlap(requested[..|requested| - 1], supported) + RowOverlap(requested[|requested| - 1], supported)
  }

  /** The negotiated bindings: either side empty means no preference. */
  function Intersection(supported: seq<ContentBinding>, requested: seq<ContentBinding>): (r: seq<ContentBinding>)
    ensures supported != [] && requested != [] ==> |r| == MatchCount(requested, supported)
  {
    if supported == [] then requested
    else if requested == [] then supported
    else
      OverlapLength(requested, supported);
      Overlap(requested, supported)
  }

  /* ---------------------------------------------------------------------
     content_bindings_intersection: the loop
     --------------------------------------------------------------------- */

  method ContentBindingsIntersection(supported: seq<ContentBinding>, requested: seq<ContentBinding>)
    returns (overlap: seq<ContentBinding>)
    ensures supported == [] ==> overlap == requested
    ensures supported != [] && requested == [] ==> overlap == supported
    ensures overlap == Intersection(supported, requested)
  {
    if supported == [] {
      return requested;
    }
    if requested == [] {
      return supported;
    }
    overlap := [];
    for i := 0 to |requested|
      invariant overlap == Overlap(requested[..i], supported)
    {
      var req := requested[i];
      ghost var before := overlap;
      for j := 0 to |supported|
        invariant overlap == before + RowOverlap(req, supported[..j])
      {
        var sup := supported[j];
        RowStep(req, supported, j);
        AppendAssoc(before, RowOverlap(req, supported[..j]), PairOverlap(req, sup));
        if req.binding != sup.binding {
          assert PairOverlap(req, sup) == [];
          continue;
        }
        if sup.subtypes == {} {
          assert PairOverlap(req, sup) == [req];
          overlap := overlap + [req];
          continue;
        }
        if req.subtypes == {} {
          assert PairOverlap(req, sup) == [sup];
          overlap := overlap + [sup];
          continue;
        }
        var common := sup.subtypes * req.subtypes;
        assert PairOverlap(req, sup) == [ContentBinding(req.binding, common)];
        overlap := overlap + [ContentBinding(req.binding, common)];
      }
      assert supported[..|supported|] == supported;
      OverlapStep(requested, supported, i);
    }
    assert requested[..|requested|] == requested;
  }

  lemma AppendAssoc<T>(a: seq<T>, b: seq<T>, c: seq<T>)
    ensures a + b + c == a + (b + c)
  {
  }

  lemma RowStep(r: ContentBinding, supported: seq<ContentBinding>, j: nat)
    requires j < |supported|
    ensures RowOverlap(r, supported[..j + 1]) == RowOverlap(r, supported[..j]) + PairOverlap(r, supported[j])
  {
    assert supported[..j + 1][..j] == supported[..j];
  }

  lemma OverlapStep(requested: seq<ContentBinding>, supported: seq<ContentBinding>, i: nat)
    requires i < |requested|
    ensures Overlap(requested[..i + 1], supported) == Overlap(requested[..i], supported) + RowOverlap(requested[i], supported)
  {
    assert requested[..i + 1][..i] == requested[..i];
  }

  /* ---------------------------------------------------------------------
     Properties of the negotiated bindings
     --------------------------------------------------------------------- */

  /** How many supported bindings carry identifier `b`. */
  function CountBinding(supported: seq<ContentBinding>, b: string): nat
  {
    if supported == [] then 0
    else (if supported[0].binding == b then 1 else 0) + CountBinding(supported[1..], b)
  }

  /** How many (requested, supported) pairs share their identifier. */
  function MatchCount(requested: seq<ContentBinding>, supported: seq<ContentBinding>): nat
  {
    if requested == [] then 0
    else CountBinding(supported, requested[0].binding) + MatchCount(requested[1..], supported)
  }

  lemma {:induction false} CountBindingAppend(a: seq<ContentBinding>, c: seq<ContentBinding>, b: string)
    ensures CountBinding(a + c, b) == CountBinding(a, b) + CountBinding(c, b)
  {
    if a == [] {
      assert a + c == c;
    } else {
      assert (a + c)[1..] == a[1..] + c;
      CountBindingAppend(a[1..], c, b);
    }
  }

  lemma {:induction false} MatchCountAppend(a: seq<ContentBinding>, c: seq<ContentBinding>,
                                            supported: seq<ContentBinding>)
    ensures MatchCount(a + c, supported) == MatchCount(a, supported) + MatchCount(c, supported)
  {
    if a == [] {
      assert a + c == c;
    } else {
      assert (a + c)[1..] == a[1..] + c;
      MatchCountAppend(a[1..], c, supported);
    }
  }

  /** Dropping the last element of a nonempty right operand. */
  lemma DropLast<T>(a: seq<T>, c: seq<T>)
    requires c != []
    ensures (a + c)[..|a + c| - 1] == a + c[..|c| - 1]
    ensures (a + c)[|a + c| - 1] == c[|c| - 1]
  {
  }

  lemma {:induction false} RowOverlapAppend(r: ContentBinding, a: seq<ContentBinding>, c: seq<ContentBinding>)
    ensures RowOverlap(r, a + c) == RowOverlap(r, a) + RowOverlap(r, c)
    decreases |c|
  {
    if c == [] {
      assert a + c == a;
    } else {
      var front, last := c[..|c| - 1], c[|c| - 1];
      var ac := a + c;
      DropLast(a, c);
      assert RowOverlap(r, ac) == RowOverlap(r, a + front) + PairOverlap(r, last);
      RowOverlapAppend(r, a, front);
      assert RowOverlap(r, c) == RowOverlap(r, front) + PairOverlap(r, last);
      AppendAssoc(RowOverlap(r, a), RowOverlap(r, front), PairOverlap(r, last));
    }
  }

  lemma {:induction false} OverlapAppend(a: seq<ContentBinding>, c: seq<ContentBinding>,
                                         supported: seq<ContentBinding>)
    ensures Overlap(a + c, supported) == Overlap(a, supported) + Overlap(c, supported)
    decreases |c|
  {
    if c == [] {
      assert a + c == a;
    } else {
      var front, last := c[..|c| - 1], c[|c| - 1];
      var ac := a + c;
      DropLast(a, c);
      assert Overlap(ac, supported) == Overlap(a + front, supported) + RowOverlap(last, supported);
      OverlapAppend(a, front, supported);
      assert Overlap(c, supported) == Overlap(front, supported) + RowOverlap(last, supported);
      AppendAssoc(Overlap(a, supported), Overlap(front, supported), RowOverlap(last, supported));
    }
  }

  /** Each requested binding contributes one entry per supported binding
      with its identifier. */
  lemma {:induction false} RowOverlapLength(r: ContentBinding, supported: seq<ContentBinding>)
    ensures |RowOverlap(r, supported)| == CountBinding(supported, r.binding)
    decreases |supported|
  {
    if supported != [] {
      var n := |supported| - 1;
      RowOverlapLength(r, supported[..n]);
      CountBindingAppend(supported[..n], [supported[n]], r.binding);
      assert supported[..n] + [supported[n]] == supported;
    }
  }

  /** The overlap has one entry per pair of bindings with equal identifiers:
      no pair is dropped and none is deduplicated. */
  lemma {:induction false} OverlapLength(requested: seq<ContentBinding>, supported: seq<ContentBinding>)
    ensures |Overlap(requested, supported)| == MatchCount(requested, supported)
    decreases |requested|
  {
    if requested != [] {
      var n := |requested| - 1;
      OverlapLength(requested[..n], supported);
      RowOverlapLength(requested[n], supported);
      MatchCountAppend(requested[..n], [requested[n]], supported);
      assert requested[..n] + [requested[n]] == requested;
    }
  }

  /** Every entry of a row comes from a supported binding with the same
      identifier. */
  lemma {:induction false} RowOverlapSound(r: ContentBinding, supported: seq<ContentBinding>, k: nat)
    requires k < |RowOverlap(r, supported)|
    ensures exists j :: 0 <= j < |supported| && supported[j].binding == r.binding &&
                        RowOverlap(r, supported)[k] == Merge(r, supported[j])
    decreases |supported|
  {
    var n := |supported| - 1;
    var prefix := supported[..n];
    if k < |RowOverlap(r, prefix)| {
      RowOverlapSound(r, prefix, k);
      var j :| 0 <= j < |prefix| && prefix[j].binding == r.binding && RowOverlap(r, prefix)[k] == Merge(r, prefix[j]);
      assert supported[j] == prefix[j];
    } else {
      assert RowOverlap(r, supported)[k] == Merge(r, supported[n]);
    }
  }

  /** Every entry of the overlap is the merge of a requested and a supported
      binding with the same identifier. */
  lemma {:induction false} OverlapSound(requested: seq<ContentBinding>, supported: seq<ContentBinding>, k: nat)
    requires k < |Overlap(requested, supported)|
    ensures exists i, j :: 0 <= i < |requested| && 0 <= j < |supported| &&
                           requested[i].binding == supported[j].binding &&
                           Overlap(requested, supported)[k] == Merge(requested[i], supported[j])
    decreases |requested|
  {
    var n := |requested| - 1;
    var prefix := requested[..n];
    if k < |Overlap(prefix, supported)| {
      OverlapSound(prefix, supported, k);
      var i, j :| 0 <= i < |prefix| && 0 <= j < |supported| && prefix[i].binding == supported[j].binding &&
                  Overlap(prefix, supported)[k] == Merge(prefix[i], supported[j]);
      assert requested[i] == prefix[i];
    } else {
      RowOverlapSound(requested[n], supported, k - |Overlap(prefix, supported)|);
      var j :| 0 <= j < |supported| && supported[j].binding == requested[n].binding &&
               RowOverlap(requested[n], supported)[k - |Overlap(prefix, supported)|] == Merge(requested[n], supported[j]);
    }
  }

  /** Where the pair (i, j) lands: after every matching pair with an earlier
      requested binding, and after the matching supported bindings before j. */
  function Position(requested: seq<ContentBinding>, supported: seq<ContentBinding>, i: nat, j: nat): nat
    requires i < |requested| && j < |supported|
  {
    MatchCount(requested[..i], supported) + CountBinding(supported[..j], requested[i].binding)
  }

  /** A row splits around one of its supported bindings. */
  lemma RowOverlapAround(r: ContentBinding, supported: seq<ContentBinding>, j: nat)
    requires j < |supported|
    ensures RowOverlap(r, supported) ==
      RowOverlap(r, supported[..j]) + PairOverlap(r, supported[j]) + RowOverlap(r, supported[j + 1..])
  {
    assert supported == supported[..j] + [supported[j]] + supported[j + 1..];
    RowOverlapAppend(r, supported[..j] + [supported[j]], supported[j + 1..]);
    RowOverlapAppend(r, supported[..j], [supported[j]]);
    assert RowOverlap(r, [supported[j]]) == PairOverlap(r, supported[j]) by {
      assert [supported[j]][..0] == [];
    }
  }

  /** The overlap splits around one of the requested bindings. */
  lemma OverlapAround(requested: seq<ContentBinding>, supported: seq<ContentBinding>, i: nat)
    requires i < |requested|
    ensures Overlap(requested, supported) ==
      Overlap(requested[..i], supported) + RowOverlap(requested[i], supported) + Overlap(requested[i + 1..], supported)
  {
    var r := requested[i];
    assert requested == requested[..i] + [r] + requested[i + 1..];
    OverlapAppend(requested[..i] + [r], requested[i + 1..], supported);
    OverlapAppend(requested[..i], [r], supported);
    assert Overlap([r], supported) == RowOverlap(r, supported) by {
      assert [r][..0] == [];
    }
  }

  /** Every matching pair contributes its merge, requested bindings in the
      outer order and supported ones in the inner order. */
  lemma OverlapPlacement(requested: seq<ContentBinding>, supported: seq<ContentBinding>, i: nat, j: nat)
    requires i < |requested| && j < |supported| && requested[i].binding == supported[j].binding
    ensures Position(requested, supported, i, j) < |Overlap(requested, supported)|
    ensures Overlap(requested, supported)[Position(requested, supported, i, j)] == Merge(requested[i], supported[j])
  {
    var r := requested[i];
    OverlapAround(requested, supported, i);
    RowOverlapAround(r, supported, j);
    assert PairOverlap(r, supported[j]) == [Merge(r, supported[j])];
    OverlapLength(requested[..i], supported);
    RowOverlapLength(r, supported[..j]);
    var before, row := Overlap(requested[..i], supported), RowOverlap(r, supported);
    var k := |RowOverlap(r, supported[..j])|;
    assert row[k] == Merge(r, supported[j]);
    assert Position(requested, supported, i, j) == |before| + k;
  }

  /** Supported "b1" with subtypes {x, y} and requested "b1" with subtypes
      {y, z} negotiate to "b1" with the common subtype {y}. */
  lemma CommonSubtypesKept()
    ensures Intersection([ContentBinding("b1", {"x", "y"})], [ContentBinding("b1", {"y", "z"})])
         == [ContentBinding("b1", {"y"})]
  {
    var s, r := ContentBinding("b1", {"x", "y"}), ContentBinding("b1", {"y", "z"});
    assert s.subtypes * r.subtypes == {"y"};
    assert [r][..0] == [] && [s][..0] == [];
  }

  /* ---------------------------------------------------------------------
     content_bindings_intersection as written
     --------------------------------------------------------------------- */

  /** The exception the third branch raises: it reads `request.binding`,
      and neither the function nor the module binds `request`. */
  datatype PyError = NameError

  /** The loop body as written, for a pair with equal identifiers. */
  function MergeAsWritten(requested: ContentBinding, supported: ContentBinding): (r: Result<ContentBinding, PyError>)
    requires requested.binding == supported.binding
    ensures r.Err? <==> requested.subtypes != {} && supported.subtypes != {}
    ensures r.Ok? ==> r.value == Merge(requested, supported)
  {
    if supported.subtypes == {} then Ok(requested)
    else if requested.subtypes == {} then Ok(supported)
    else Err(NameError)
  }

  /** The inner loop as written: the first NameError ends the call. */
  function RowAsWritten(requested: ContentBinding, supported: seq<ContentBinding>): Result<seq<ContentBinding>, PyError>
  {
    if supported == [] then Ok([])
    else
      match RowAsWritten(requested, supported[..|supported| - 1])
      case Err(e) => Err(e)
      case Ok(acc) =>
        var last := supported[|supported| - 1];
        if requested.binding != last.binding then Ok(acc)
        else
          match MergeAsWritten(requested, last)
          case Err(e) => Err(e)
          case Ok(m) => Ok(acc + [m])
  }

  /** The outer loop as written. */
  function OverlapAsWritten(requested: seq<ContentBinding>, supported: seq<ContentBinding>): Result<seq<ContentBinding>, PyError>
  {
    if requested == [] then Ok([])
    else
      match OverlapAsWritten(requested[..|requested| - 1], supported)
      case Err(e) => Err(e)
      case Ok(acc) =>
        match RowAsWritten(requested[|requested| - 1], supported)
        case Err(e) => Err(e)
        case Ok(row) => Ok(acc + row)
  }

  /** `content_bindings_intersection` exactly as the file has it. */
  function IntersectionAsWritten(supported: seq<ContentBinding>, requested: seq<ContentBinding>): (r: Result<seq<ContentBinding>, PyError>)
    ensures r.Err? ==> supported != [] && requested != [] && r.error == NameError
  {
    if supported == [] then Ok(requested)
    else if requested == [] then Ok(supported)
    else OverlapAsWritten(requested, supported)
  }

  /** The pair shares its identifier and names subtypes on both sides. */
  predicate BothSpecific(r: ContentBinding, s: ContentBinding)
  {
    r.binding == s.binding && r.subtypes != {} && s.subtypes != {}
  }

  /** Some supported binding clashes with `r` in that way. */
  predicate RowClash(r: ContentBinding, supported: seq<ContentBinding>)
  {
    exists j :: 0 <= j < |supported| && BothSpecific(r, supported[j])
  }

  /** Some requested binding clashes with some supported one. */
  predicate Clash(requested: seq<ContentBinding>, supported: seq<ContentBinding>)
  {
    exists i :: 0 <= i < |requested| && RowClash(requested[i], supported)
  }

  lemma {:induction false} RowAsWrittenFails(r: ContentBinding, supported: seq<ContentBinding>)
    ensures RowAsWritten(r, supported) ==
      if RowClash(r, supported) then Err(NameError) else Ok(RowOverlap(r, supported))
    decreases |supported|
  {
    if supported != [] {
      var n := |supported| - 1;
      var front, last := supported[..n], supported[n];
      RowAsWrittenFails(r, front);
      assert forall j :: 0 <= j < n ==> front[j] == supported[j];
      assert RowClash(r, supported) <==> RowClash(r, front) || BothSpecific(r, last);
      if r.binding != last.binding {
        assert PairOverlap(r, last) == [];
        assert RowOverlap(r, front) + [] == RowOverlap(r, front);
      }
    }
  }

  /** As written, the function agrees with the intended one unless some
      matching pair names subtypes on both sides, and then it raises
      NameError. */
  lemma {:induction false} OverlapAsWrittenFails(requested: seq<ContentBinding>, supported: seq<ContentBinding>)
    ensures OverlapAsWritten(requested, supported) ==
      if Clash(requested, supported) then Err(NameError) else Ok(Overlap(requested, supported))
    decreases |requested|
  {
    if requested != [] {
      var n := |requested| - 1;
      var front, last := requested[..n], requested[n];
      OverlapAsWrittenFails(front, supported);
      RowAsWrittenFails(last, supported);
      assert forall i :: 0 <= i < n ==> front[i] == requested[i];
      assert Clash(requested, supported) <==> Clash(front, supported) || RowClash(last, supported);
    }
  }

  /** As written, the whole function raises NameError exactly when both
      lists are non-empty and some matching pair names subtypes on both
      sides; otherwise it returns the intended bindings. */
  lemma IntersectionAsWrittenFails(supported: seq<ContentBinding>, requested: seq<ContentBinding>)
    ensures IntersectionAsWritten(supported, requested) ==
      if supported != [] && requested != [] && Clash(requested, supported)
      then Err(NameError) else Ok(Intersection(supported, requested))
  {
    OverlapAsWrittenFails(requested, supported);
  }

  /** Supported "b1" with subtypes {x, y} and requested "b1" with subtypes
      {y, z}: as written the call raises NameError, where the intended result
      is the single binding "b1" with subtype {y}. */
  lemma AsWrittenRaisesOnCommonSubtypes()
    ensures IntersectionAsWritten([ContentBinding("b1", {"x", "y"})], [ContentBinding("b1", {"y", "z"})])
         == Err(NameError)
    ensures Intersection([ContentBinding("b1", {"x", "y"})], [ContentBinding("b1", {"y", "z"})])
         == [ContentBinding("b1", {"y"})]
  {
    var s, r := ContentBinding("b1", {"x", "y"}), ContentBinding("b1", {"y", "z"});
    assert "x" in s.subtypes && "y" in r.subtypes;
    assert BothSpecific([r][0], [s][0]);
    assert RowClash([r][0], [s]);
    OverlapAsWrittenFails([r], [s]);
    CommonSubtypesKept();
  }
}
