# OpenTAXII content bindings and Basic credentials, in Dafny

This project models three small pieces of the OpenTAXII server (a TAXII
1.0/1.1 threat-intelligence exchange server) and proves properties of them:

- **the content-binding support check** `is_content_supported`, present twice
  with the same body (opentaxii/utils.py and opentaxii/taxii/utils.py): does a
  service that declares a list of content bindings accept a requested binding,
  given as a bare identifier or as a TAXII 1.1 binding with `binding_id` and
  `subtype_ids`, under protocol version 10 or otherwise;
- **binding negotiation** `content_bindings_intersection`
  (opentaxii/taxii/utils.py): the overlap of the requested and supported
  bindings, built by a nested loop, modelled as a method with loop invariants
  and proved against a functional specification;
- **Basic credential decoding** `parse_basic_auth_token` (opentaxii/utils.py),
  the HTTP Basic scheme of section 2 of RFC 7617: base64 (section 4 of
  RFC 4648), then UTF-8, then a split at the first colon, with every failure
  except the `ValueError` of a non-ASCII token mapped to `InvalidAuthHeader`.

Modules: `Wrappers` (Option, Result), `Octets` (bytes), `Base64` (strict
RFC 4648 base64) and `Utf8` (strict UTF-8, as Python 3's codec reads and
writes it), the two codecs the credential decoding relies on; `Bindings` (content bindings, candidates, Python's
`any`), `Utils` (opentaxii/utils.py) and `TaxiiUtils` (opentaxii/taxii/utils.py).

Modelling choices:

- A binding entry's `subtypes` is a set: the code only tests it for emptiness
  and membership and intersects it.
- The requested binding is `Candidate`, with two constructors, `Plain(id)` and
  `Structured(bindingId, subtypeIds)`, in place of the `hasattr(...,
  'binding_id')` test. `version` is `Option<int>`; only `version == 10` is
  ever tested, and the default `None` behaves like any other value.
- Under version 10 the code compares the whole candidate with each entry's
  `binding`. For a structured candidate that is an object compared with a
  string, which is never equal, so such a candidate matches nothing. One
  might expect version 10 to compare only the identifier and ignore
  subtypes; the code compares the whole object, and the model follows the
  code.
- `parse_basic_auth_token` is modelled with Python 3 semantics. A token
  holding a non-ASCII character makes `base64.b64decode` raise a plain
  `ValueError`. That exception is not among those the function catches, so it
  escapes unchanged; the model returns `UncaughtValueError` for it.

## Model

| member | source | states |
|---|---|---|
| `Bindings.LookupOf` | opentaxii/utils.py:121-130 | a bare value, or any candidate under version 10, has no subtype and its identifier is the whole value; otherwise the identifier is `binding_id` and the subtype is `subtype_ids[0]`, present exactly when `subtype_ids` is non-empty |
| `Bindings.Any` | opentaxii/utils.py:138 | `any` is true exactly when some element of the list is true |
| `Utils.IsContentSupported` | opentaxii/utils.py:119-138 | supported exactly when some declared entry has the candidate's identifier and either lists no subtypes or lists the candidate's subtype |
| `Utils.NothingDeclaredNothingSupported` | opentaxii/utils.py:132-138 | with no declared bindings nothing is supported, for every candidate and version |
| `Utils.BareLookupNeedsWildcard` | opentaxii/utils.py:121-134 | a bare identifier, or any candidate under version 10, is supported exactly when an entry with that identifier lists no subtypes; a structured candidate under version 10 is never supported |
| `Utils.StructuredLookup` | opentaxii/utils.py:124-134 | a structured candidate outside version 10 is supported exactly when an entry with its `binding_id` lists no subtypes or lists its first subtype id |
| `Utils.OnlyFirstSubtypeConsulted` | opentaxii/utils.py:127-130 | two structured candidates with the same identifier and the same first subtype id (or both without one) get the same answer |
| `Utils.WildcardAcceptsAnySubtype` | opentaxii/utils.py:132-138 | an entry with the candidate's identifier and no subtypes makes the candidate supported whatever its subtypes |
| `Utils.SupportCarriesOver` | opentaxii/utils.py:132-138 | support depends only on which entries are declared: a declaration holding every entry of another supports all it supports |
| `Utils.OrderIrrelevant` | opentaxii/utils.py:132-138 | reordering the declared entries does not change the answer |
| `Utils.DeclaringMoreKeepsSupport` | opentaxii/utils.py:132-138 | appending a declared entry never turns support into no support |
| `Utils.SplitOnColon` | opentaxii/utils.py:47 | no result exactly when the text holds no colon; otherwise the user part holds no colon and user + ":" + password is the text |
| `Utils.SplitUnique` | opentaxii/utils.py:47 | for a user without a colon, splitting user + ":" + password gives back exactly that user and password |
| `Utils.ParseBasicAuthToken` | opentaxii/utils.py:38-50 | an accepted user name holds no colon; the only error other than `InvalidAuthHeader` is the escaping `ValueError`, raised exactly for non-ASCII tokens |
| `Utils.BasicAuthToken` | tests/test_auth.py:176-178 | the token the tests build, base64 of the UTF-8 of "user:password", is ASCII |
| `Utils.EncodingIsAscii` | opentaxii/utils.py:41 | base64 text is ASCII, so a built token never reaches the escaping `ValueError` |
| `Utils.ParseBuiltToken` | opentaxii/utils.py:41-48 | for a user without a colon and any password, the token built from them decodes to exactly that pair |
| `Utils.AcceptedTokenCarriesCredentials` | opentaxii/utils.py:41-48 | conversely, a token that yields (user, password) base64-decodes to the UTF-8 bytes of user + ":" + password, and the user holds no colon |
| `Utils.NotBase64Refused` | opentaxii/utils.py:40-43 | an ASCII token that is not base64 raises `InvalidAuthHeader` with the "Can't decode" message |
| `Utils.SomevalueRefused` | tests/test_auth.py:231-250 | the header value "somevalue" of the tests is refused as undecodable |
| `Utils.TextWithoutColonRefused` | opentaxii/utils.py:45-50 | a well-encoded text without a colon raises `InvalidAuthHeader` with the "Invalid" message |
| `Base64.Encode` | tests/test_auth.py:177-178 | an encoding has four characters for every started group of three bytes |
| `Base64.EncodeAlphabet` | tests/test_auth.py:177-178 | an encoding holds only alphabet characters and '=' |
| `Base64.Decode` | opentaxii/utils.py:41 | a decodable text has a length that is a multiple of four, and three bytes per four characters, less at most two for padding |
| `Base64.DecodeEncode` | opentaxii/utils.py:41 | decoding an encoding gives back the bytes |
| `Utf8.EncodeChar` | tests/test_auth.py:178 | a character takes one to four bytes, one exactly when it is ASCII, and every byte after the first is a continuation byte |
| `Utf8.Encode` | tests/test_auth.py:178 | an encoding is at least as long as the text and empty only for the empty text |
| `Utf8.DecodeFirst` | opentaxii/utils.py:46 | a well-formed leading sequence of one to four bytes is exactly the encoding of the character it yields |
| `Utf8.Decode` | opentaxii/utils.py:46 | a decoded text re-encodes to exactly the input bytes, so only well-formed, shortest-form UTF-8 is accepted |
| `Utf8.DecodeFirstEncodeChar` | opentaxii/utils.py:46 | the encoding of a character, followed by anything, reads back that character and its byte count |
| `Utf8.DecodeEncode` | opentaxii/utils.py:46 | decoding the encoding of a text gives back the text |
| `TaxiiUtils.IsContentSupported` | opentaxii/taxii/utils.py:20-34 | supported exactly when some declared entry has the candidate's identifier and either lists no subtypes or lists its subtype |
| `TaxiiUtils.SameAsUtilsCopy` | opentaxii/taxii/utils.py:20-34 | this copy gives the same answer as the one in opentaxii/utils.py for every input |
| `TaxiiUtils.Merge` | opentaxii/taxii/utils.py:73-86 | the emitted entry keeps the identifier; when it lists subtypes they are exactly those both sides cover; it lists none exactly when neither side lists any or both list some and share none |
| `TaxiiUtils.Intersection` | opentaxii/taxii/utils.py:57-88 | the intended result: either list empty gives the other unchanged; otherwise one entry per (requested, supported) pair with equal identifiers |
| `TaxiiUtils.ContentBindingsIntersection` | opentaxii/taxii/utils.py:57-88 | no supported bindings gives the requested ones unchanged; supported but no requested ones gives the supported ones unchanged; otherwise the overlap of the specification |
| `TaxiiUtils.RowOverlapLength` | opentaxii/taxii/utils.py:68-86 | one requested binding contributes one entry per supported binding with its identifier |
| `TaxiiUtils.OverlapLength` | opentaxii/taxii/utils.py:65-88 | the overlap has one entry per (requested, supported) pair with equal identifiers, with no deduplication |
| `TaxiiUtils.RowOverlapSound` | opentaxii/taxii/utils.py:68-86 | every entry one requested binding contributes is its merge with a supported binding of the same identifier |
| `TaxiiUtils.OverlapSound` | opentaxii/taxii/utils.py:65-88 | every entry of the overlap is the merge of a requested and a supported binding with the same identifier |
| `TaxiiUtils.OverlapPlacement` | opentaxii/taxii/utils.py:65-88 | each matching pair's merge sits after all matching pairs of earlier requested bindings and after the earlier matching supported bindings of its own row |
| `TaxiiUtils.CommonSubtypesKept` | opentaxii/taxii/utils.py:81-86 | "b1" with {x, y} supported and {y, z} requested negotiates to "b1" with {y} |
| `TaxiiUtils.MergeAsWritten` | opentaxii/taxii/utils.py:73-86 | as written, a pair fails exactly when both sides list subtypes, and otherwise gives the intended entry |
| `TaxiiUtils.RowAsWrittenFails` | opentaxii/taxii/utils.py:68-86 | as written, a requested binding's row raises NameError exactly when some supported binding with its identifier lists subtypes while it does too, and otherwise is the intended row |
| `TaxiiUtils.OverlapAsWrittenFails` | opentaxii/taxii/utils.py:65-88 | as written, the overlap raises NameError exactly when some matching pair lists subtypes on both sides, and otherwise is the intended overlap |
| `TaxiiUtils.IntersectionAsWritten` | opentaxii/taxii/utils.py:57-88 | as written, the function can only raise NameError, and only when both lists are non-empty |
| `TaxiiUtils.IntersectionAsWrittenFails` | opentaxii/taxii/utils.py:57-88 | as written, the function raises NameError exactly when both lists are non-empty and some matching pair lists subtypes on both sides, and otherwise returns the intended result |
| `TaxiiUtils.AsWrittenRaisesOnCommonSubtypes` | opentaxii/taxii/utils.py:81-86 | for "b1" {x, y} supported and "b1" {y, z} requested, the code as written raises NameError where "b1" {y} is intended |

## Findings

| source | as written | input that shows it | evidently intended | confidence | as-written member | corrected member |
|---|---|---|---|---|---|---|
| opentaxii/taxii/utils.py:81-86 | when both sides list subtypes, the loop calls `ContentBinding(binding = request.binding, ...)`; `request` is bound nowhere in the function or the module, so evaluating the argument raises NameError (whether the star import of `libtaxii.constants` supplies `ContentBinding` does not matter) | supported `[("b1", {x, y})]`, requested `[("b1", {y, z})]` | append a binding with the requested binding's identifier (equal to the supported one's) and the common subtypes: `[("b1", {y})]` | high; not executed | `TaxiiUtils.IntersectionAsWritten`, shown by `TaxiiUtils.IntersectionAsWrittenFails` and `TaxiiUtils.AsWrittenRaisesOnCommonSubtypes` | `TaxiiUtils.ContentBindingsIntersection` with `TaxiiUtils.Merge`, proved by `TaxiiUtils.OverlapSound`, `TaxiiUtils.OverlapPlacement` and `TaxiiUtils.OverlapLength` |

## Left out

- `parse_message` (opentaxii/taxii/utils.py:37-53): schema validation and parsing belong to lxml and libtaxii, which are not part of this model.
- `import_class` and `load_inner_api` (opentaxii/utils.py:17-35): dynamic import and reflection.
- `configure_logging`, `_remove_all_existing_log_handlers` and `PlainRenderer` (opentaxii/utils.py:53-112): global logging state and output.
- `get_utc_now` (opentaxii/utils.py:115-116 and opentaxii/taxii/utils.py:16-17): the wall clock.
- The `print` of the token (opentaxii/utils.py:39): output only.
- Base64.Decode: strict decoding per RFC 4648. Python's `b64decode` silently drops characters outside the alphabet and tolerates some misplaced padding. A token with such characters is refused here but may be accepted by Python. The round trip and the refusal of "somevalue" hold either way.
- Utils.ParseBasicAuthToken: inherits the strictness of Base64.Decode above. It models Python 3 only; Python 2's `str`/`unicode` behaviour is not modelled.
- Utf8.Decode: a Dafny `char` is a Unicode scalar value, so a `str` holding a lone surrogate cannot be expressed. No UTF-8 decoder produces one.
- `None` for `supported_bindings` or `requested_bindings` is not modelled: both are sequences. `content_bindings_intersection` treats `None` as empty; `is_content_supported` would raise `TypeError` when it iterates a `None` `supported_bindings`.
- The structured candidate under version 10 never matching rests on libtaxii binding objects never equalling a string. libtaxii is not part of this model.
- Object identity: `content_bindings_intersection` returns and appends the very objects it was given. The model works on values, so aliasing is not captured.
