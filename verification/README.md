# API gateway request handler — a verified Dafny model

The gateway registers one catch-all handler per configured route prefix
(`/auth`, `/transport`, `/routes`, `/hotels`, `/events`, `/booking`). For
each inbound request the handler checks a signed token taken from the
`Authorization` header (except on `/auth`), forwards the request to the
route's upstream base URL followed by the captured remainder of the path,
and relays the upstream's status, `Content-Type` and body back to the caller.

This project models `add_route` and the handler closure it registers in
`cmd/main.go`:

- `text.dfy` (module `Text`): Go's `strings.Split` on a one-character
  separator, with `strings.Join` as its inverse.
- `http.dfy` (module `Http`): header multimaps (`Values`, `Get`), the
  request header under construction as a class whose `Add` appends in
  place, and the header copy loop `CopyHeader`, proved equal to the
  specification `CopiedHeader`.
- `gateway.dfy` (module `Gateway`): routes, `AddRoute`, the authentication
  gate `Gate`, and the handler as a function from the route, the inbound
  request and the results of the external steps (`Env`) to an `Outcome`
  plus a record of the external steps taken (`Effects`: was the key load
  tried, which token reached the verifier, which request was sent upstream).
- `gateway_properties.dfy` (module `GatewayProperties`): the handler's
  promises as lemmas over all inputs.
- `options.dfy`: the `Option` datatype.

The external steps are inputs:

- `Env.keyLoads`: whether `loadPublicKey` succeeded.
- `Env.verify`: what `jwt.Parse` says about a token string.
- `Env.newRequest`: the error, if any, of `http.NewRequest` for a method and URL.
- `Env.upstream`: what `client.Do` and `io.ReadAll` produce for the forwarded request.

The model follows the code as written:

- The token is element `[1]` of the header split on `:`. That is the text
  between the first and the second colon, not everything after the first colon.
- A header without a colon is not a 401. An absent or empty header counts
  as one without a colon. Indexing `[1]` panics (outcome `Panic`).
  `gin.Default()` installs a recovery middleware that turns such a panic
  into a bare 500. That middleware is outside this model.
- The target URL is the plain concatenation `dest + params`. There is no
  slash normalisation.
- The key is loaded on every request to a non-exempt prefix, not once at startup.
  If loading fails, the handler returns without writing any response.
- A failure of `http.NewRequest` ends the process (`log.Fatalf`). See
  "## Findings": `Handle` answers it with the 500 that the code writes
  right after the `log.Fatalf`, and `HandleAsWritten` models the code as written.

## Model

| member | source | states |
|---|---|---|
| `Gateway.AddRoute` | cmd/main.go:80-84 | an empty path or destination is fatal, with message `unable to define route:'<path>'`, and registers nothing; otherwise exactly one route is registered, under the pattern `path` followed by `/*params` |
| `Gateway.Gate` | cmd/main.go:87-104 | nothing is sent upstream at this stage; a request passes exactly when the prefix is `/auth`, or the key loaded and the verifier accepted the extracted token; the key load is tried exactly on non-`/auth` prefixes; a stop is one of no response, 401 or panic |
| `Gateway.Handle` | cmd/main.go:84-145 | never ends the process; a sent request has the inbound method, the URL `dest + params`, the inbound body and, for every key, the inbound values in order; a relayed reply is the upstream's status, `Content-Type` and body; a 401 carries `Invalid or expired token`, sends nothing and follows a token the verifier rejected; on `/auth` no token is verified and the outcome is a relay or a 500 |
| `Gateway.HandleAsWritten` | cmd/main.go:110-115 | the process ends exactly when an admitted request cannot be built by `http.NewRequest`, and then nothing is sent |
| `Http.CopiedHeader` | cmd/main.go:118-122 | the copied header has, for every key, the same value list and the same first value as the inbound header; it has no key the inbound header lacks, every key with at least one value is present, and no key in it has an empty list |
| `Http.CopyHeader` | cmd/main.go:118-122 | the nested loop leaves a freshly created header whose entries equal `CopiedHeader` of the inbound header, whatever order the keys are visited in |
| `Http.RequestHeader.constructor` | cmd/main.go:110 | the request created by `http.NewRequest` starts with an empty header |
| `Http.RequestHeader.Add` | cmd/main.go:120 | `Add` appends the value to the end of the key's list and changes no other key |
| `Gateway.AuthorizationToken` | cmd/main.go:93-94 | the token is read from the first `Authorization` value; a request without that header has no token, and there is a token exactly when that value contains a colon |
| `Gateway.TokenOf` | cmd/main.go:94 | element `[1]` of the split exists exactly when the value contains a colon; the token contains no colon and is shorter than the value; `TokenBetweenColons` and `TokenDecomposition` pin it down as the text between the first and second colon |
| `Gateway.Admitted` | cmd/main.go:87-102 | a request on a prefix other than `/auth` is let through only if the key loaded and its `Authorization` value contains a colon; `Gate` is proved to admit exactly these requests |
| `Gateway.Accepted` | cmd/main.go:99 | the verifier accepts exactly when `jwt.Parse` returned no error and `token.Valid` holds; a parse error or `!token.Valid` is a rejection |
| `Gateway.Target` | cmd/main.go:110 | the URL is the destination followed by the captured remainder, character for character, with nothing inserted or removed between them |
| `Gateway.Forwarded` | cmd/main.go:110-122 | the forwarded request has the inbound method and body, the URL `Target`, and for every key the inbound values in order, with no key the inbound header lacks |
| `Gateway.Relay` | cmd/main.go:127-144 | a reply is relayed exactly when the upstream returned one, with its status, its `Content-Type` and its body; a send or read failure becomes a 500 carrying that error text |
| `Http.Values` | cmd/main.go:118-122 | the values of a key in order, and none for an absent key |
| `Http.Get` | cmd/main.go:93 | the first value of a key, or `""` when the key is absent or has no values; used for `Authorization` at line 93 and `Content-Type` at line 144 |
| `Text.Split` | cmd/main.go:94 | `strings.Split` never returns an empty list; `SplitLength`, `SplitPiecesFree`, `JoinSplit` and `SplitJoin` state its piece count, that no piece holds the separator, and that it is inverse to `Join` |
| `Text.Join` | cmd/main.go:94 | a specification partner for `Split` only, with no call site in the source: `strings.Join` starts with the first piece, followed by the separator when there is a second piece, and `JoinSplit`/`SplitJoin` prove it inverse to `Split` |
| `Text.IndexOf` | cmd/main.go:94 | finds the first occurrence of the separator, or reports that there is none |
| `Text.SplitWhole` | cmd/main.go:94 | a value without a colon splits into a single piece |
| `Text.SplitFirst` | cmd/main.go:94 | the first colon cuts off the first piece, and the rest splits on its own |
| `Text.FirstPiece` | cmd/main.go:94 | the first piece is a colon-free prefix followed by nothing or by a colon |
| `Text.IndexOfAfter` | cmd/main.go:94 | a colon after a colon-free prefix is the first colon |
| `Text.SplitLength` | cmd/main.go:94 | the split has one piece more than the value has colons, so index `[1]` exists exactly when there is a colon |
| `Text.SplitPiecesFree` | cmd/main.go:94 | no piece of the split contains a colon |
| `Text.JoinSplit` | cmd/main.go:94 | joining the pieces with the separator restores the value |
| `Text.SplitJoin` | cmd/main.go:94 | splitting a join of separator-free pieces returns the pieces |
| `GatewayProperties.TokenExistsIffColon` | cmd/main.go:93-94 | a token exists exactly when the `Authorization` value contains a colon |
| `GatewayProperties.TokenBetweenColons` | cmd/main.go:93-94 | for any colon-free scheme and token, and any rest that is empty or starts with a colon, the extracted token is that token |
| `GatewayProperties.TokenDecomposition` | cmd/main.go:93-94 | every value that yields a token is scheme, colon, token and rest of that shape |
| `GatewayProperties.TokenStopsAtSecondColon` | cmd/main.go:94 | `Bearer:abc:def` yields `abc`, not `abc:def` |
| `GatewayProperties.AuthRouteIgnoresKeyAndVerifier` | cmd/main.go:87 | on `/auth` the result is the same whatever the key and the verifier would say, and the request is sent exactly when it can be built |
| `GatewayProperties.KeyFailureWritesNothing` | cmd/main.go:88-92 | on other prefixes a failed key load ends the handler with no response, no token inspected and nothing sent |
| `GatewayProperties.MissingColonPanics` | cmd/main.go:93-94 | with the key loaded, an `Authorization` value without a colon panics on index `[1]` and sends nothing |
| `GatewayProperties.AbsentHeaderPanics` | cmd/main.go:93-94 | a request with no `Authorization` header takes that panic path |
| `GatewayProperties.RejectedTokenUnauthorized` | cmd/main.go:95-102 | a parse error or `!token.Valid` yields 401 `Invalid or expired token`, with that token verified and nothing sent |
| `GatewayProperties.EarlyOutcomes` | cmd/main.go:87-102 | no response, panic and 401 each happen exactly on the inputs that lead to them |
| `GatewayProperties.SentIffAdmittedAndBuilt` | cmd/main.go:104-127 | a request is sent exactly when it is admitted and can be built, and what is sent is `Forwarded`: the inbound method, header and body with the URL `dest + params` (the inbound query string is not part of it) |
| `GatewayProperties.ForwardedHeaderPreserved` | cmd/main.go:118-122 | the forwarded header has the inbound values of every key, in order, and no key the inbound header lacks |
| `GatewayProperties.UpstreamFailureIsInternalError` | cmd/main.go:127-141 | a failed send or a failed body read yields a 500 carrying that error text, and nothing is relayed |
| `GatewayProperties.ReplyRelayedVerbatim` | cmd/main.go:136-144 | on success the caller gets the upstream status, `Content-Type` and body unchanged |
| `GatewayProperties.HandleAgreesUnlessBuildFails` | cmd/main.go:110-115 | the handler as written and the corrected handler agree whenever the request is not admitted or can be built |
| `GatewayProperties.BuildFailureEndsProcess` | cmd/main.go:110-115 | on a build failure the code as written ends the process with `error creating request: <err>`, and the corrected handler writes the 500; neither sends anything |
| `GatewayProperties.EscapedPathStopsGateway` | cmd/main.go:110-114 | a request to `/auth/%25zz` whose URL `http.NewRequest` rejects ends the process as written, but gets a 500 from the corrected handler |

## Left out

- `loadPublicKey` (file read, PEM decoding, PKIX and RSA parsing) is not part of this model. Only its success or failure is an input.
- JWT parsing and RSA signature checking are not part of this model. The verifier is an input that returns a parse error and `token.Valid`.
- The HTTP client, `client.Do`, `io.ReadAll` and `resp.Body.Close` are network I/O. The upstream is an input. Closing the response body is not modelled.
- The checks done by `http.NewRequest` are an input. The request's `Host` and `ContentLength` fields are not modelled.
- The request body is a byte sequence passed through unchanged. Its single-read stream behaviour is not modelled.
- gin routing is not modelled. That covers matching the `*params` wildcard, `r.Run`, and the JSON and data rendering of responses. `params` is an input and responses are `Outcome` values.
- gin's recovery middleware is not modelled. It answers a handler panic with a 500.
- `NoResponse` is the handler's view only. When a handler writes nothing, gin sends its default status, so a failed key load reaches the caller as an empty 200.
- The inbound query string is not forwarded. `c.Param("params")` captures only the URL path, and line 110 builds the URL from `dest + params`, so `?a=b` is dropped. `Inbound` has no query field because the handler never reads one.
- The HTTP client at line 107 has no timeout, and the request carries a context nobody cancels. So `client.Do` or `io.ReadAll` can block forever. `Env.upstream` is total, so the model always reaches an outcome and does not capture a request that never finishes.
- The body relayed "unchanged" is the body `io.ReadAll` returns, not necessarily the bytes on the wire. When the inbound request has no `Accept-Encoding`, Go's transport asks for gzip itself, decompresses the reply and drops its `Content-Encoding`. That happens inside the `client.Do` input.
- Go strings and header values are byte strings; here they are sequences of characters. Splitting on the ASCII `:` is the same either way.
- `main`, `load_routes`, the `routes` struct and `json.Unmarshal` are not part of this model. They are startup file and JSON I/O.
- Canonicalisation of header keys (`CanonicalMIMEHeaderKey`) in `Header.Add` and `Header.Get` is left out. It is idempotent, and the keys it receives here come from a parsed request, so they are already canonical.
- Logging (`fmt.Print*`) is left out. Only `log.Fatalf`'s process exit is an outcome.
- gin runs each request in its own goroutine. That concurrency is not modelled.
- Go's map iteration order is not modelled. `CopyHeader` picks keys in an arbitrary order, and header properties are stated per key.

## Findings

| source | as written | input that shows it | evidently intended | confidence | as-written member | corrected member |
|---|---|---|---|---|---|---|
| cmd/main.go:110-115 | a failure of `http.NewRequest` calls `log.Fatalf`, which ends the process, so the 500 written on lines 113-114 is unreachable | `GET /auth/%25zz` with destination `http://auth:8081`: gin passes the decoded remainder `/%zz`, and `http.NewRequest` rejects `http://auth:8081/%zz` as an invalid URL escape | answer that request with 500 and the error text, and keep serving | medium, not executed | `GatewayProperties.EscapedPathStopsGateway` | `Gateway.Handle` |
