# HTTP 304 conditional-caching validator

A Dafny model of the `Http304` class of LC6464.ASPNET.Http304. The class
decides whether a client's cached copy is still fresh. If it is, the response
becomes an empty `304 Not Modified`. If it is not, the server issues a fresh
validator pair: a `Last-Modified` header carrying the server epoch, and an
`ETag` header carrying a salted, truncated SHA-256 digest.

The ETag is 50 characters long:

    "  digest[0..22]  salt  digest[22..43]  "

- The salt is 5 characters drawn from a fixed alphabet.
- The digest is the Base64 text of SHA-256 over the UTF-8 bytes of
  `ip ++ salt ++ value`, cut to 43 characters.
- `ip` is the client address, used only when address binding is asked for;
  `value` is a caller-supplied discriminator.

Modules, one per component of the source class:

- `Crypto` (crypto.dfy): the foreign primitives UTF-8, SHA-256 and Base64, kept
  abstract as function-typed fields of `Primitives`. `WellFormed` records the
  only facts the layout needs: SHA-256 yields 32 bytes, and Base64 of 32 bytes
  is 44 characters.
- `ETagCodec` (etag_codec.dfy): the layout constants, the salt alphabet, and
  `Encode` / `Decode` with their round-trip lemmas.
- `Validator` (validator.dfy): the address rule, the issued tag, the guard,
  the verdict `Verify`, and the lemmas about it (round trip, epoch sensitivity,
  tamper detection, context binding).
- `Http` (http.dfy): the part of the framework that is touched. This is a request
  with its two conditional headers, and a `Response` class that has a status
  code, a header list and a body.
- `Caching` (caching.dfy): the class `Http304` with `Set`, plus `IsValid`
  and `TrySet`, each with its single-argument overload. It also holds the salt
  drawing loop and a two-request client scenario.

The alphabet in the code (`Http304.cs:84`) has 92 characters;
`ETagCodec.CharListShape` proves the count.

## Model

| member | source | states |
|---|---|---|
| `Crypto.HashText` | Http304.cs:62-63 | Base64 of the SHA-256 of the UTF-8 text is always 44 characters, so both `[..43]` and `[22..43]` are in range |
| `ETagCodec.Encode` | Http304.cs:94 | the ETag is quote-delimited and is `|salt| + 45` characters long, so it is exactly 50 characters when the salt has 5 |
| `ETagCodec.Body` | Http304.cs:58 | the span starting at position 1 of a 50-character tag has 48 characters |
| `ETagCodec.Decode` | Http304.cs:58-60 | a tag decodes exactly when it has 50 characters; then the salt has 5 characters and the reassembled digest has 43 |
| `ETagCodec.DecodeSlices` | Http304.cs:58-60 | in tag positions, the salt is `tag[23..28]` and the digest is `tag[1..23] ++ tag[28..49]` |
| `ETagCodec.DecodeEncode` | Http304.cs:94 | decoding an encoded `(salt, hash)` with a 5-character salt gives back the salt and `hash[..43]` |
| `ETagCodec.EncodeDecode` | Http304.cs:58-60 | re-encoding a decoded tag reproduces its 48-character body, and reproduces the whole tag when it is delimited by quotes |
| `ETagCodec.DecodeIgnoresDelimiters` | Http304.cs:58 | two 50-character tags that differ only in their first and last characters decode to the same token |
| `ETagCodec.BodySlice` | Http304.cs:58 | a slice of the body is the same slice of the tag shifted by one position |
| `ETagCodec.IsSalt` | Http304.cs:84-87 | a salt is five characters of the alphabet, so each is printable ASCII other than a space, a quote or a backslash |
| `ETagCodec.LowerShape` | Http304.cs:84 | the lower-case run of the alphabet has 26 characters, all between `a` and `z` |
| `ETagCodec.UpperShape` | Http304.cs:84 | the upper-case run of the alphabet has 26 characters, all between `A` and `Z` |
| `ETagCodec.DigitsShape` | Http304.cs:84 | the digit run of the alphabet has 10 characters, all between `0` and `9` |
| `ETagCodec.SymbolsShape` | Http304.cs:84 | the symbol run of the alphabet has 30 printable ASCII characters, none of them a space, a quote or a backslash |
| `ETagCodec.CharListAt` | Http304.cs:84 | tells which run each position of the alphabet falls in |
| `ETagCodec.CharListShape` | Http304.cs:84 | the salt alphabet has 92 characters; each is printable ASCII, and none is a space, a quote or a backslash |
| `ETagCodec.SaltIsQuoteFree` | Http304.cs:84-87 | a salt drawn from the alphabet contains no quote character |
| `Validator.ClientAddress` | Http304.cs:50 | the address text is the remote address when `withIP` holds and an address exists, and is empty otherwise |
| `Validator.HashInput` | Http304.cs:62 | the hash input is the address, then the salt, then the value, each found at its own offset |
| `Validator.Guard` | Http304.cs:55 | the guard is exactly the four conjuncts of the `if`, and a tag that passes it always decodes |
| `Validator.TruncatedDigest` | Http304.cs:63 | the recomputed digest has 43 characters |
| `Validator.IssueETag` | Http304.cs:90-94 | the issued tag is quote-delimited, and it has 50 characters exactly when the salt has 5 |
| `Validator.Verify` | Http304.cs:55-69 | a request is only accepted when it has one `If-None-Match` value, one `If-Modified-Since` value, a 50-character tag, and `If-Modified-Since` equal to the epoch |
| `Validator.VerifyCharacterization` | Http304.cs:55-67 | a request is accepted iff the guard holds and the tag body equals the body of the tag this server issues for the same `ip`, `value` and the salt the tag carries |
| `Validator.IssuedETagVerifies` | Http304.cs:55-94 | a tag issued for `(ip, value)` with a 5-character salt, sent back with the epoch, is accepted for the same `ip` and `value` |
| `Validator.GuardFailureSkipsHashing` | Http304.cs:55-69 | when the guard fails the verdict is false for every choice of hash primitives, so no digest decides it |
| `Validator.VerifyIgnoresDelimiters` | Http304.cs:58-60 | the verdict does not depend on the first and last characters of the tag |
| `Validator.EpochSensitivity` | Http304.cs:55 | a request accepted under one epoch is refused under every other epoch |
| `Validator.DigestTamperDetected` | Http304.cs:59-67 | changing any one character in the digest part of an accepted tag makes it refused, whatever the primitives are |
| `Validator.SaltTamperDetected` | Http304.cs:59-67 | changing any one salt character of an accepted tag makes it refused, unless the truncated digests of the two hash inputs collide |
| `Validator.AddressBinding` | Http304.cs:50-62 | a tag issued for address `a` is refused for any different address `b` with the same value, unless the two hash inputs collide |
| `Validator.ValueBinding` | Http304.cs:62 | a tag issued for value `v` is refused for any different value `w` with the same address, unless the two hash inputs collide |
| `Validator.InputsDifferInAddress` | Http304.cs:62 | different address texts give different hash inputs for the same salt and value |
| `Validator.InputsDifferInValue` | Http304.cs:62 | different values give different hash inputs for the same address and salt |
| `Http.HeaderValues` | Http304.cs:52-53 | lists, in order, the value of every header of that name and nothing else: each listed value comes from such a header, every such header's value is listed, and with none the list is empty |
| `Http.Response.Clear` | Http304.cs:34 | afterwards the status is 200 and the headers and body are empty |
| `Http.Response.AddHeader` | Http304.cs:93-94 | appends exactly the one header and leaves the status and the body unchanged |
| `Caching.DrawSalt` | Http304.cs:84-87 | the salt has exactly 5 characters and each comes from the alphabet |
| `Caching.FreshValidators` | Http304.cs:93-94 | the appended headers carry exactly one `Last-Modified` value, the epoch, and exactly one `ETag` value, the issued tag |
| `Caching.Http304.Address` | Http304.cs:82 | the address text is the remote address when `withIP` holds and one exists, and is empty otherwise |
| `Caching.Http304.constructor` | Http304.cs:19-25 | stores the request, the response, the remote address, the epoch and the primitives |
| `Caching.Http304.Set` | Http304.cs:32-40 | returns `isSet`; when it is true the response is cleared and its status is 304; when false the response is unchanged |
| `Caching.Http304.IsValid` | Http304.cs:48-70 | the result is `Verify` applied to the request's two header lists, the epoch, `value`, and the address chosen by `withIP` |
| `Caching.Http304.IsValidWithoutIP` | Http304.cs:106 | the result is `Verify` with an empty address |
| `Caching.Http304.TrySet` | Http304.cs:78-98 | returns `IsValid`. When valid, the status becomes 304 and the headers and body are cleared. When invalid, the status and body are unchanged and exactly `Last-Modified = epoch` and `ETag = IssueETag(ip, salt, value)` are appended, for some salt of 5 alphabet characters |
| `Caching.Http304.TrySetWithoutIP` | Http304.cs:113 | the same as `TrySet` with an empty address |
| `Caching.Revalidate` | Http304.cs:78-98 | a client stores the headers of a first response and echoes them back. The second request is answered 304 exactly when the first was not |

## Left out

- The constructor's epoch derivation is not modelled (the program file's last-write time, UTC conversion and RFC 1123 formatting, Http304.cs:24). File-system access and date formatting are outside the model, so the epoch is a string handed to the constructor.
- UTF-8 encoding, SHA-256 and Base64 are library calls. They are abstract functions with only the two length facts that the slicing needs.
- `Random.Shared.Next` becomes an arbitrary choice of an index below the alphabet's length. Uniformity and thread safety are not modelled.
- Logging (Http304.cs:38, 54, 65) is observability only and is left out.
- The `SHA256` object's creation and disposal (`using`) are resource handling with no effect on the verdict.
- The dependency-injection registration in IServiceCollectionExtensions.cs has no logic and is not part of this model.
- Strings are modelled as sequences of Unicode scalar values. C# counts UTF-16 code units, so a header holding a character outside the Basic Multilingual Plane has a different length in the model.
- The framework's header dictionary is modelled as an ordered list. Header names are compared case-sensitively. The exception that `Headers.Add` throws for a name that is already present is not modelled.
- `Response.Clear` is modelled as status 200 with empty headers and body. The exception thrown once the response has started, and the reason phrase, are not modelled. The body is emptied unconditionally, whereas the framework truncates it only when the stream is seekable.
- SaltTamperDetected: salt tampering is proved only under the hypothesis that the truncated digest tells the two hash inputs apart. Collision resistance is a cryptographic claim and cannot be proved here.
- AddressBinding: proved only under the same no-collision hypothesis for the two hash inputs.
- ValueBinding: proved only under the same no-collision hypothesis for the two hash inputs.
