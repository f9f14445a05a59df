# ECR credential resolution, modelled in Dafny

This project models `ecr-login/api/client.go` of the Amazon ECR Docker credential helper. That file holds the code that turns a registry address into Docker login credentials, in three layers.

- **Registry parsing (`ExtractRegistry`).**
  - It strips one optional `https://` and matches the host against the ECR host pattern.
  - It returns the account ID, the FIPS flag and the region.
  - Module `Registries` models this. The pattern is a hand-written matcher. Its meaning is the predicate `Decomposes`: the input starts with `id + ".dkr.ecr" + ("-fips" or "") + "." + region + ".amazonaws.com"`, where `id` and `region` are labels (an alphanumeric, then alphanumerics, `-` or `_`).
  - The matcher is proved sound and complete for that decomposition, and the decomposition is proved unique.
- **Token decoding (`extractToken`).**
  - An authorization token is base64 (standard alphabet, padded, as Go's `StdEncoding` decodes it).
  - It decodes to `user:password` and is split on the first colon.
  - Module `Base64` models decoding, with encoding as its partner. Module `Tokens` models the split and `extractToken`.
- **The default client.**
  - `GetCredentials` and `GetCredentialsByRegistryID` take a fast path on a fresh cached entry. Otherwise they call the ECR service once, and fall back to the stale entry when the call fails.
  - `ListCredentials` decodes every cached entry. When none decodes, it fetches once for the default registry.
  - `getAuthorizationToken` uses the first answer element that has both an endpoint and a token. It re-derives the cache key from that endpoint and writes the cache only on full success.
  - Module `Cache` models the cache as a class with a map field and a listing order.
  - Module `Client` models the client as a class `DefaultClient`. Its methods are proved against the pure functions `Fetch`, `Resolve` and `ListAll`, and those functions' properties are proved as lemmas.

The ECR service is not called. Each method that may call it takes the `TokenResponse` the call would get:
- a service error;
- a nil output;
- the list of `AuthorizationData` records, whose fields are all optional.

The client's ghost field `requests` logs every call made, so "no call", "exactly one call" and "a call with no registry IDs" are stated about it.

The current time is a parameter `now`.

The cache's freshness test `IsValid` is a function value fixed when the cache is made, and is otherwise unknown to the model.

Two behaviours of the code are easy to misread:
- The password is everything after the first colon (`SplitN` with n = 2) and may contain further colons.
- A fetched token is cached under the registry ID its returned proxy endpoint names, which need not be the ID asked for.

## Model

| member | source | states |
|---|---|---|
| Registries.ExtractRegistry | ecr-login/api/client.go:44-60 | no contract of its own; its meaning is given by ExtractRegistrySound, ExtractRegistryComplete, ExtractRegistryRejects and NeverMalformed |
| Registries.StripScheme | ecr-login/api/client.go:45-46 | no contract of its own; SchemeIsOptional, SchemeStrippedOnce and OtherSchemeRejected state that exactly one leading `https://`, and no other scheme, is removed |
| Registries.LabelThen | ecr-login/api/client.go:34 | one `[a-zA-Z0-9][a-zA-Z0-9-_]*` group followed by a literal: when it matches, the input is a label, the literal and a remainder |
| Registries.FindStringSubmatch | ecr-login/api/client.go:34 | a match yields either no strings or exactly five (the whole match and four groups) |
| Registries.MatchText | ecr-login/api/client.go:34 | in a five-string match the `.cn` group is `.cn` or empty, and the whole match is account, `.dkr.ecr`, FIPS group, `.`, region, `.amazonaws.com` and `.cn` group, a prefix of the input |
| Registries.MatchSound | ecr-login/api/client.go:34 | whenever the pattern matches, the input decomposes as account label, `.dkr.ecr`, the FIPS group, `.`, region label, `.amazonaws.com`, and the rest |
| Registries.MatchComplete | ecr-login/api/client.go:34 | every such decomposition is found, with exactly its account, FIPS group and region as submatches |
| Registries.DecompositionUnique | ecr-login/api/client.go:34 | a host decomposes in at most one way, since labels contain no dot |
| Registries.ExtractRegistrySound | ecr-login/api/client.go:44-60 | a parsed registry is a decomposition of the URL once one leading `https://` is removed |
| Registries.ExtractRegistryComplete | ecr-login/api/client.go:44-60 | every decomposition of the stripped URL is the registry returned |
| Registries.ExtractRegistryRejects | ecr-login/api/client.go:48-50 | a URL with no decomposition fails with the "only Amazon ECR" error |
| Registries.NeverMalformed | ecr-login/api/client.go:49-53 | the "not a valid repository URI" error is never returned, because a match always has five submatches |
| Registries.ExtractedFieldsAreLabels | ecr-login/api/client.go:54-58 | the account ID and region are non-empty labels and contain no `.` |
| Registries.FipsExactlyWhenMarked | ecr-login/api/client.go:56 | FIPS is set exactly when `-fips` immediately follows `<id>.dkr.ecr` |
| Registries.SchemeIsOptional | ecr-login/api/client.go:44-47 | for a URL not itself starting with `https://`, prefixing `https://` does not change the result |
| Registries.SchemeStrippedOnce | ecr-login/api/client.go:44-47 | only one `https://` is stripped: a doubled scheme is rejected |
| Registries.OtherSchemeRejected | ecr-login/api/client.go:44-47 | no other scheme is stripped: any URL of the form `<name>://...` with a name other than `https` made of label characters (`http`, `HTTPS`, `ftp`) is rejected |
| Registries.HttpSchemeRejected | ecr-login/api/client.go:44-47 | in particular `http://...` is rejected |
| Registries.SuffixIgnored | ecr-login/api/client.go:34 | the match is anchored only at the start: appending anything (`.cn`, `/repo`) to an accepted URL gives the same registry |
| Registries.FipsEndpointExample | ecr-login/api/client.go:44-60 | `https://123456789012.dkr.ecr-fips.us-east-1.amazonaws.com` is account `123456789012`, FIPS, region `us-east-1` |
| Registries.ChinaEndpointExample | ecr-login/api/client.go:34 | `123456789012.dkr.ecr.cn-north-1.amazonaws.com.cn` is account `123456789012`, not FIPS, region `cn-north-1` |
| Base64.Decode | ecr-login/api/client.go:200 | no contract of its own; DecodeSucceedsIffWellFormed says which tokens it accepts, DecodeEncode and LeftoverBitsIgnored what they decode to |
| Base64.DecodeSucceedsIffWellFormed | ecr-login/api/client.go:200-203 | the token decodes exactly when it is whole four-character quanta of the alphabet, with `=` or `==` padding allowed only at the end |
| Base64.PartialQuantumRejected | ecr-login/api/client.go:200-203 | a token whose length is not a multiple of four does not decode |
| Base64.DecodeEncode | ecr-login/api/client.go:200 | decoding undoes padded standard encoding, for every byte sequence |
| Base64.EncodeWellFormed | ecr-login/api/client.go:200 | every encoding is accepted by the decoder |
| Base64.LeftoverBitsIgnored | ecr-login/api/client.go:200 | decoding is not strict: `QR==` decodes like `QQ==`, which is the encoding of `A` |
| Tokens.BytesToString | ecr-login/api/client.go:205 | `string(decodedToken)` keeps the length and gives each byte as the character with that code |
| Tokens.SplitN2 | ecr-login/api/client.go:205 | splitting into at most two parts gives one part (the whole text) exactly when there is no `:`, and otherwise the text before the first `:` and all of the text after it |
| Tokens.FirstSeparatorUnique | ecr-login/api/client.go:205 | the split at the first colon is the only split whose left part has no colon |
| Tokens.ExtractToken | ecr-login/api/client.go:199-214 | fails with the encoding error when the token does not decode and with the format error when the payload has no `:`; succeeds exactly otherwise, with the endpoint passed through and `username + ":" + password` equal to the payload |
| Tokens.ExtractTokenRoundTrip | ecr-login/api/client.go:199-214 | extracting the encoding of `u:p`, where `u` has no colon, gives back `u`, `p` and the endpoint |
| Tokens.SplitOnFirstColonExample | ecr-login/api/client.go:205-214 | `user:pass:x` gives user `user`, password `pass:x` |
| Tokens.EmptyTokenRejected | ecr-login/api/client.go:205-208 | the empty token decodes to an empty payload and fails with the format error |
| Tokens.TruncatedTokenRejected | ecr-login/api/client.go:200-203 | a token that is not whole quanta fails with the encoding error |
| Cache.Store | ecr-login/api/client.go:189 | after `Set(id, e)`, `id` maps to `e` and every other ID keeps its entry; consistency of the listing is kept |
| Cache.Lookup | ecr-login/api/client.go:99 | no contract of its own; Store states that after `Set(id, e)` it gives `e` for `id` and the old entry for every other ID |
| Cache.Listing | ecr-login/api/client.go:125 | one entry per listed ID; ListingIsContents and StoreListing state that it holds exactly the resident entries and how `Set` changes it |
| Cache.ListingIsContents | ecr-login/api/client.go:125 | `List` returns every resident entry and nothing else |
| Cache.StoreListing | ecr-login/api/client.go:125 | `Set` replaces the entry of a known ID in place in the listing, and appends the entry of a new ID |
| Cache.CredentialCache.Get | ecr-login/api/client.go:99 | `Get` returns the stored entry for the ID, and nothing when there is none |
| Cache.CredentialCache.List | ecr-login/api/client.go:125 | `List` on the cache object is the listing of its current contents |
| Cache.CredentialCache.Set | ecr-login/api/client.go:189 | `Set` updates the cache object's state as `Store` says and keeps it consistent |
| Client.RequestFor | ecr-login/api/client.go:150-159 | the request names no registry exactly when the ID is empty, and otherwise names just that ID |
| Client.EntryFor | ecr-login/api/client.go:175-180 | no contract of its own; FetchWrite states that the cached entry carries the element's token and endpoint, `RequestedAt = now` and the reported expiry (the zero time when absent) |
| Client.FirstUsable | ecr-login/api/client.go:173-174 | the index of the first answer element with both an endpoint and a token, or nothing exactly when no element has both |
| Client.Fetch | ecr-login/api/client.go:149-197 | the cache is written exactly when the fetch succeeds; a service error and a nil output become a wrapped fetch error; an answer with no usable element is the "no authorization token" error |
| Client.FetchFrom | ecr-login/api/client.go:174-190 | for the chosen element, the cache is written exactly when the result is a success |
| Client.FetchWrite | ecr-login/api/client.go:175-190 | a successful fetch caches the first usable element with `RequestedAt = now` and the reported expiry, under the ID its own endpoint names; decoding that entry gives the result returned |
| Client.FetchRejects | ecr-login/api/client.go:181-188 | a chosen element whose endpoint is not an ECR endpoint, or whose token does not decode, fails with that reason and caches nothing |
| Client.FirstUsableDecides | ecr-login/api/client.go:173-192 | only the first usable element matters: unusable elements before it and any elements after it do not change the outcome |
| Client.Resolve | ecr-login/api/client.go:98-121 | no contract of its own; its meaning is given by FastPath, Refresh, WritesOnlyAfterSuccessfulCall and RefreshThenHit |
| Client.FastPath | ecr-login/api/client.go:99-104 | a fresh cached entry is decoded, errors included, with no service call and no cache write |
| Client.Refresh | ecr-login/api/client.go:111-120 | a missing or stale entry costs one call; a failed call falls back to the cached entry when there is one and propagates otherwise; a successful call is returned |
| Client.WritesOnlyAfterSuccessfulCall | ecr-login/api/client.go:98-121 | resolving writes the cache exactly when the service was called and the fetch succeeded |
| Client.RefreshThenHit | ecr-login/api/client.go:99-104 | after a refresh that cached the requested ID, asking again while that entry is fresh makes no call and returns the same credentials |
| Client.DecodeAll | ecr-login/api/client.go:124-132 | no contract of its own; DecodeAllEmpty, DecodeAllFromEntries and DecodeAllComplete state that it collects exactly the credentials of the entries that decode |
| Client.DecodeAllEmpty | ecr-login/api/client.go:134-135 | the decoded list is empty exactly when no listed entry decodes |
| Client.DecodeAllFromEntries | ecr-login/api/client.go:124-132 | every listed credential is the decoding of some cached entry |
| Client.DecodeAllComplete | ecr-login/api/client.go:124-132 | every listed entry that decodes contributes its credential |
| Client.ListAll | ecr-login/api/client.go:123-147 | no contract of its own; its meaning is given by ListFromCache and ListFallsBack |
| Client.ListFromCache | ecr-login/api/client.go:123-147 | when some entry decodes, the result is the decodable entries in listing order, with no error and no call |
| Client.ListFallsBack | ecr-login/api/client.go:134-144 | when none decodes (an empty cache included), one default-registry fetch decides: its single credential, or an empty list and its error |
| Client.DefaultClient.GetAuthorizationToken | ecr-login/api/client.go:149-197 | one call is logged with the request for the ID; the result and the new cache state are those of `Fetch` on the response |
| Client.DefaultClient.GetCredentialsByRegistryID | ecr-login/api/client.go:98-121 | the result, the calls logged and the new cache state are those of `Resolve` on the old cache |
| Client.DefaultClient.GetCredentials | ecr-login/api/client.go:84-95 | a URL that is not an ECR host returns that parse error, with no call and no cache change; otherwise it behaves as `GetCredentialsByRegistryID` on the parsed account ID |
| Client.DefaultClient.ListCredentials | ecr-login/api/client.go:123-147 | the credentials, the error, the calls logged and the new cache state are those of `ListAll` on the old cache |

## Left out

- Logging through logrus (debug and info messages) is left out: it does not affect results.
- Error messages are modelled as an enumerated error kind. The kind carries the registry ID or endpoint where a message names one. The exact text is left out, including the missing space in the "not a valid repository URI" message.
- The AWS SDK types and `aws.String`, `aws.StringValue` and `aws.TimeValue` are modelled as plain records with optional fields. An absent expiry becomes the constant `ZeroTime`.
- The network call to ECR is not made. Its outcome is an input, `TokenResponse`.
- Nil elements inside `AuthorizationData`, on which the Go code would dereference nil, are not modelled.
- Client.DefaultClient.GetCredentialsByRegistryID: one `now` serves both the freshness check and the fetch's `RequestedAt`, where the Go code reads the clock twice.
- The cache package is not part of this model.
  - Its `IsValid` policy, including the shortened expiry, is an arbitrary function value.
  - The order of its `List` is modelled as first-insertion order.
  - Any eviction or persistence is absent.
- Base64.Decode: Go's decoder also skips `\r` and `\n` in its input. The model decodes only padded input without line breaks.
- Concurrent use of a shared cache is left out, because the code takes no locks and promises nothing about it.
- The `Client` interface declaration and the `programName` constant are left out. They carry no behaviour beyond the methods and the message text.
- The examples on literal URLs are stated with those URLs written as concatenations of the module's constants, e.g. `"123456789012" + DkrEcr + "." + "cn-north-1" + AmazonAws + ChinaSuffix`.
