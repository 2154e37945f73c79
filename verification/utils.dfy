/** opentaxii/utils.py: the content-binding support check and the decoding
    of an HTTP Basic credential (section 2 of RFC 7617). */
module Utils {
  import opened Wrappers
  import opened Octets
  import opened Bindings
  import Base64
  import Utf8

  /* ---------------------------------------------------------------------
     is_content_supported
     --------------------------------------------------------------------- */

  /** Whether a service that declares `supported` accepts `candidate`: the
      list of per-entry matches, and then `any` of it. */
  function IsContentSupported(supported: seq<ContentBinding>, candidate: Candidate,
                              version: Option<int>): (r: bool)
    ensures r <==> exists i :: 0 <= i < |supported| && Matches(supported[i], LookupOf(candidate, version))
  {
    var key := LookupOf(candidate, version);
    var matches := seq(|supported|, i requires 0 <= i < |supported| => Matches(supported[i], key));
    assert forall i :: 0 <= i < |supported| ==> matches[i] == Matches(supported[i], key);
    Any(matches)
  }

  /** A service that declares no binding supports nothing. */
  lemma NothingDeclaredNothingSupported(candidate: Candidate, version: Option<int>)
    ensures !IsContentSupported([], candidate, version)
  {
  }

  /** A bare identifier, or any candidate under version 10, has no subtype:
      it is supported exactly when an entry with that identifier covers every
      subtype.  A structured candidate under version 10 is compared as a
      whole object and so matches no entry. */
  lemma BareLookupNeedsWildcard(supported: seq<ContentBinding>, candidate: Candidate,
                                version: Option<int>)
    requires candidate.Plain? || version == Some(10)
    ensures IsContentSupported(supported, candidate, version) <==>
      candidate.Plain? &&
      exists i :: 0 <= i < |supported| && supported[i].binding == candidate.id && supported[i].subtypes == {}
  {
  }

  /** A TAXII 1.1 binding is supported exactly when an entry with its
      `binding_id` lists no subtypes, or lists its first subtype id. */
  lemma StructuredLookup(supported: seq<ContentBinding>, candidate: Candidate, version: Option<int>)
    requires candidate.Structured? && version != Some(10)
    ensures IsContentSupported(supported, candidate, version) <==>
      exists i :: 0 <= i < |supported| && supported[i].binding == candidate.bindingId &&
        (supported[i].subtypes == {} ||
         (|candidate.subtypeIds| > 0 && candidate.subtypeIds[0] in supported[i].subtypes))
  {
  }

  /** Only the first subtype id is consulted: candidates that agree on the
      identifier and on the first subtype id get the same answer. */
  lemma OnlyFirstSubtypeConsulted(supported: seq<ContentBinding>, c1: Candidate, c2: Candidate,
                                  version: Option<int>)
    requires c1.Structured? && c2.Structured? && c1.bindingId == c2.bindingId
    requires (|c1.subtypeIds| > 0) == (|c2.subtypeIds| > 0)
    requires |c1.subtypeIds| > 0 ==> c1.subtypeIds[0] == c2.subtypeIds[0]
    ensures IsContentSupported(supported, c1, version) == IsContentSupported(supported, c2, version)
  {
    assert LookupOf(c1, version) == LookupOf(c2, version);
  }

  /** A wildcard entry for the identifier accepts the candidate whatever its
      subtype (for a bare identifier, or a structured one outside version 10). */
  lemma WildcardAcceptsAnySubtype(supported: seq<ContentBinding>, candidate: Candidate,
                                  version: Option<int>, i: nat)
    requires i < |supported| && supported[i].subtypes == {}
    requires candidate.Plain? ==> supported[i].binding == candidate.id
    requires candidate.Structured? ==> supported[i].binding == candidate.bindingId && version != Some(10)
    ensures IsContentSupported(supported, candidate, version)
  {
    assert Matches(supported[i], LookupOf(candidate, version));
  }

  /** Support depends only on which entries are declared: whatever `a`
      supports, a declaration holding every entry of `a` supports too. */
  lemma SupportCarriesOver(a: seq<ContentBinding>, b: seq<ContentBinding>, candidate: Candidate,
                           version: Option<int>)
    requires forall e :: e in a ==> e in b
    requires IsContentSupported(a, candidate, version)
    ensures IsContentSupported(b, candidate, version)
  {
    var key := LookupOf(candidate, version);
    var i :| 0 <= i < |a| && Matches(a[i], key);
    assert a[i] in b;
    var j :| 0 <= j < |b| && b[j] == a[i];
  }

  /** The order of the declared entries does not matter. */
  lemma OrderIrrelevant(s1: seq<ContentBinding>, s2: seq<ContentBinding>, candidate: Candidate,
                        version: Option<int>)
    requires multiset(s1) == multiset(s2)
    ensures IsContentSupported(s1, candidate, version) == IsContentSupported(s2, candidate, version)
  {
    assert forall e :: e in s1 <==> e in multiset(s1);
    assert forall e :: e in s2 <==> e in multiset(s2);
    if IsContentSupported(s1, candidate, version) {
      SupportCarriesOver(s1, s2, candidate, version);
    }
    if IsContentSupported(s2, candidate, version) {
      SupportCarriesOver(s2, s1, candidate, version);
    }
  }

  /** Declaring one more entry never withdraws support. */
  lemma DeclaringMoreKeepsSupport(supported: seq<ContentBinding>, entry: ContentBinding,
                                  candidate: Candidate, version: Option<int>)
    requires IsContentSupported(supported, candidate, version)
    ensures IsContentSupported(supported + [entry], candidate, version)
  {
    SupportCarriesOver(supported, supported + [entry], candidate, version);
  }

  /* ---------------------------------------------------------------------
     parse_basic_auth_token
     --------------------------------------------------------------------- */

  /** What the function raises.  `UncaughtValueError` is the ValueError
      that `base64.b64decode` raises for a `str` holding a non-ASCII
      character: it is not among the exceptions the function catches and
      leaves it unchanged. */
  datatype AuthError =
    | InvalidAuthHeader(message: string)
    | UncaughtValueError

  const CantDecode: string := "Can't decode Basic Auth header value"
  const InvalidValue: string := "Invalid Basic Auth header value"

  predicate IsAscii(s: string)
  {
    forall k :: 0 <= k < |s| ==> s[k] as int < 0x80
  }

  /** `text.split(':', 1)` unpacked into two names: the text before the
      first colon and the rest, or `None` when there is no colon and the
      unpacking fails. */
  function SplitOnColon(text: string): (r: Option<(string, string)>)
    ensures r.None? <==> ':' !in text
    ensures r.Some? ==> ':' !in r.value.0 && r.value.0 + ":" + r.value.1 == text
  {
    if text == [] then None
    else if text[0] == ':' then Some(([], text[1..]))
    else
      match SplitOnColon(text[1..])
      case None => None
      case Some((user, password)) => Some(([text[0]] + user, password))
  }

  /** The user name and password a Basic credential carries; the `print` of
      the token is not modelled. */
  function ParseBasicAuthToken(token: string): (r: Result<(string, string), AuthError>)
    ensures r.Ok? ==> ':' !in r.value.0
    ensures r == Err(UncaughtValueError) <==> !IsAscii(token)
    ensures r.Err? && IsAscii(token) ==> r.error.InvalidAuthHeader?
  {
    if !IsAscii(token) then Err(UncaughtValueError)
    else
      match Base64.Decode(token)
      case None => Err(InvalidAuthHeader(CantDecode))
      case Some(value) =>
        match Utf8.Decode(value)
        case None => Err(InvalidAuthHeader(InvalidValue))
        case Some(text) =>
          match SplitOnColon(text)
          case None => Err(InvalidAuthHeader(InvalidValue))
          case Some(credentials) => Ok(credentials)
  }

  /** A split at the first colon is determined by the text: the part before
      it holds no colon. */
  lemma {:induction false} SplitUnique(user: string, password: string)
    requires ':' !in user
    ensures SplitOnColon(user + ":" + password) == Some((user, password))
  {
    var text := user + ":" + password;
    if user != [] {
      assert text[0] == user[0] && text[1..] == user[1..] + ":" + password;
      SplitUnique(user[1..], password);
      assert [user[0]] + user[1..] == user;
    }
  }

  /** The header value a client sends: base64 of the UTF-8 of
      "user:password", as the tests build it.  It is always ASCII. */
  function BasicAuthToken(user: string, password: string): (token: string)
    ensures IsAscii(token)
  {
    var bytes := Utf8.Encode(user + ":" + password);
    EncodingIsAscii(bytes);
    Base64.Encode(bytes)
  }

  /** Base64 text is ASCII, so it never reaches the uncaught ValueError. */
  lemma EncodingIsAscii(bytes: seq<Octets.byte>)
    ensures IsAscii(Base64.Encode(bytes))
  {
    var token := Base64.Encode(bytes);
    Base64.EncodeAlphabet(bytes);
    forall k | 0 <= k < |token|
      ensures token[k] as int < 0x80
    {
      assert Base64.IsAlphabet(token[k]) || token[k] == Base64.Pad;
    }
  }

  /** Decoding a token built from a user name without a colon gives back
      that user name and the password, colons in the password included. */
  lemma ParseBuiltToken(user: string, password: string)
    requires ':' !in user
    ensures ParseBasicAuthToken(BasicAuthToken(user, password)) == Ok((user, password))
  {
    var bytes := Utf8.Encode(user + ":" + password);
    Base64.DecodeEncode(bytes);
    Utf8.DecodeEncode(user + ":" + password);
    SplitUnique(user, password);
  }

  /** Conversely, every accepted token decodes to the UTF-8 bytes of
      "user:password" for the pair it yields. */
  lemma AcceptedTokenCarriesCredentials(token: string, user: string, password: string)
    requires ParseBasicAuthToken(token) == Ok((user, password))
    ensures ':' !in user
    ensures Base64.Decode(token) == Some(Utf8.Encode(user + ":" + password))
  {
  }

  /** A token that is not base64 is refused as undecodable. */
  lemma NotBase64Refused(token: string)
    requires IsAscii(token) && Base64.Decode(token).None?
    ensures ParseBasicAuthToken(token) == Err(InvalidAuthHeader(CantDecode))
  {
  }

  /** "somevalue", the header value of the tests, is not base64: nine
      characters are not a whole number of quads. */
  lemma SomevalueRefused()
    ensures ParseBasicAuthToken("somevalue") == Err(InvalidAuthHeader(CantDecode))
  {
    assert |"somevalue"| % 4 != 0;
  }

  /** A well-encoded text without a colon is refused as an invalid value. */
  lemma TextWithoutColonRefused(text: string)
    requires ':' !in text
    ensures ParseBasicAuthToken(Base64.Encode(Utf8.Encode(text))) == Err(InvalidAuthHeader(InvalidValue))
  {
    var bytes := Utf8.Encode(text);
    var token := Base64.Encode(bytes);
    EncodingIsAscii(bytes);
    Base64.DecodeEncode(bytes);
    Utf8.DecodeEncode(text);
    assert Base64.Decode(token) == Some(bytes);
    assert Utf8.Decode(bytes) == Some(text);
    assert SplitOnColon(text).None?;
  }
}
