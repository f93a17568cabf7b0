/**
 * The gateway's route registration and the request handler it installs for
 * each route (cmd/main.go:80-145). Everything the handler asks of a library
 * (loading the public key, checking the token, building the request, the
 * round trip to the upstream service) is an input in `Env`.
 */
module Gateway {
  import opened Options
  import opened Text
  import opened Http

  /** The one prefix whose requests are forwarded without a token. */
  const AuthPrefix := "/auth"
  /** gin's catch-all segment appended to every prefix; it captures `params`. */
  const ParamsWildcard := "/*params"
  const AuthorizationKey := "Authorization"
  const ContentTypeKey := "Content-Type"
  const InvalidTokenMessage := "Invalid or expired token"
  const CreateRequestFailure := "error creating request: "
  /** What the Go runtime reports when `strings.Split(h, ":")[1]` finds a single piece. */
  const IndexPanicMessage := "runtime error: index out of range [1] with length 1"

  /** A configured route: path prefix and upstream base URL. */
  datatype Route = Route(prefix: string, dest: string)

  /** What `add_route` does: install a handler under a pattern, or end the process. */
  datatype Registration =
    | Registered(pattern: string, route: Route)
    | RegistrationFatal(message: string)

  /** An inbound request as the handler sees it (`verb` is the HTTP method); `params` is gin's capture of the path after the prefix. */
  datatype Inbound = Inbound(verb: string, params: string, header: Header, body: seq<byte>)

  /** The request the handler hands to the HTTP client. */
  datatype Outbound = Outbound(verb: string, url: string, header: Header, body: seq<byte>)

  /** What `jwt.Parse` returned: its error, if any, and `token.Valid`. */
  datatype Verdict = Verdict(parseError: Option<string>, valid: bool)

  /** The upstream round trip: `client.Do` failed, `io.ReadAll` failed, or a full reply. */
  datatype Exchange =
    | SendFailed(error: string)
    | ReadFailed(error: string)
    | Reply(status: int, header: Header, body: seq<byte>)

  /**
   * The results of the external steps: whether `loadPublicKey` succeeded,
   * the verdict for a token string, the error (if any) of `http.NewRequest`
   * for a method and URL, and the upstream's answer to a request.
   */
  datatype Env = Env(
    keyLoads: bool,
    verify: string -> Verdict,
    newRequest: (string, string) -> Option<string>,
    upstream: Outbound -> Exchange)

  /** What the caller of the handler observes. */
  datatype Outcome =
    | NoResponse                                            // the handler returns without writing
    | Unauthorized(error: string)                           // 401 with a JSON error
    | InternalError(error: string)                          // 500 with a JSON error
    | Relayed(status: int, contentType: string, body: seq<byte>)
    | Panic(message: string)                                // runtime panic in the handler
    | Fatal(message: string)                                // `log.Fatalf`: the process exits

  /**
   * Which external steps the handler took: whether it tried to load the key,
   * the token string it gave the verifier, and the request it sent upstream.
   */
  datatype Effects = Effects(keyLoadAttempted: bool, verifiedToken: Option<string>, sent: Option<Outbound>)

  datatype Handled = Handled(outcome: Outcome, effects: Effects)

  /** The result of the authentication gate: go on to forward, or stop with an outcome. */
  datatype Admission =
    | Admit(effects: Effects)
    | Halt(outcome: Outcome, effects: Effects)

  /** `add_route`: an empty path or destination ends the process; otherwise one catch-all handler. */
  function AddRoute(path: string, dest: string): (reg: Registration)
    ensures reg.RegistrationFatal? <==> path == "" || dest == ""
    ensures reg.RegistrationFatal? ==> reg.message == "unable to define route:'" + path + "'"
    ensures reg.Registered? ==>
              && reg.route == Route(path, dest)
              && |path| <= |reg.pattern|
              && reg.pattern[..|path|] == path
              && reg.pattern[|path|..] == ParamsWildcard
  {
    if path == "" || dest == "" then
      RegistrationFatal("unable to define route:'" + path + "'")
    else
      Registered(path + ParamsWildcard, Route(path, dest))
  }

  /**
   * The token the handler extracts from an `Authorization` value: element [1]
   * of the value split on ":", or None where that index is out of range.
   */
  function TokenOf(authorization: string): (token: Option<string>)
    ensures token.Some? <==> ':' in authorization
    ensures token.Some? ==> ':' !in token.value && |token.value| < |authorization|
  {
    SplitLength(authorization, ':');
    SplitPiecesFree(authorization, ':');
    JoinSplit(authorization, ':');
    var parts := Split(authorization, ':');
    if |parts| < 2 then None else Some(parts[1])
  }

  /** `c.GetHeader("Authorization")` is the first value of the key, "" when absent. */
  function AuthorizationToken(header: Header): (token: Option<string>)
    ensures AuthorizationKey !in header ==> token.None?
    ensures token.Some? <==> ':' in Get(header, AuthorizationKey)
  {
    TokenOf(Get(header, AuthorizationKey))
  }

  /** The verifier accepted the token: no parse error and `token.Valid`. */
  predicate Accepted(v: Verdict)
    ensures v.parseError.Some? ==> !Accepted(v)
    ensures !v.valid ==> !Accepted(v)
    ensures v.parseError.None? && v.valid ==> Accepted(v)
  {
    v.parseError.None? && v.valid
  }

  /** The URL the request is forwarded to: plain concatenation, no separator handling. */
  function Target(route: Route, req: Inbound): (url: string)
    ensures |url| == |route.dest| + |req.params|
    ensures url[..|route.dest|] == route.dest && url[|route.dest|..] == req.params
  {
    route.dest + req.params
  }

  /** The request the handler sends: built by `http.NewRequest`, then filled by the header copy. */
  function Forwarded(route: Route, req: Inbound): (out: Outbound)
    ensures out.verb == req.verb && out.body == req.body
    ensures out.url == Target(route, req)
    ensures out.header.Keys <= req.header.Keys
    ensures forall key :: Values(out.header, key) == Values(req.header, key)
  {
    Outbound(req.verb, Target(route, req), CopiedHeader(req.header), req.body)
  }

  /** When the gate lets a request through: the exempt prefix, or a loaded key and an accepted token. */
  predicate Admitted(route: Route, req: Inbound, env: Env)
    ensures Admitted(route, req, env) && route.prefix != AuthPrefix ==>
              env.keyLoads && ':' in Get(req.header, AuthorizationKey)
  {
    || route.prefix == AuthPrefix
    || (&& env.keyLoads
        && AuthorizationToken(req.header).Some?
        && Accepted(env.verify(AuthorizationToken(req.header).value)))
  }

  /** Lines 87-104 of the handler: the key, the header, the token. */
  function Gate(route: Route, req: Inbound, env: Env): (g: Admission)
    ensures g.effects.sent.None?
    ensures g.Admit? <==> Admitted(route, req, env)
    ensures g.effects.keyLoadAttempted <==> route.prefix != AuthPrefix
    ensures g.effects.verifiedToken.Some? ==>
              env.keyLoads && g.effects.verifiedToken == AuthorizationToken(req.header)
    ensures g.Halt? ==> g.outcome.NoResponse? || g.outcome.Unauthorized? || g.outcome.Panic?
  {
    if route.prefix == AuthPrefix then
      Admit(Effects(false, None, None))
    else if !env.keyLoads then
      Halt(NoResponse, Effects(true, None, None))
    else
      match AuthorizationToken(req.header)
      case None => Halt(Panic(IndexPanicMessage), Effects(true, None, None))
      case Some(token) =>
        if Accepted(env.verify(token)) then Admit(Effects(true, Some(token), None))
        else Halt(Unauthorized(InvalidTokenMessage), Effects(true, Some(token), None))
  }

  /** Turn the upstream's answer into what the caller gets (lines 127-144). */
  function Relay(ex: Exchange): (o: Outcome)
    ensures o.Relayed? <==> ex.Reply?
    ensures o.Relayed? ==> o == Relayed(ex.status, Get(ex.header, ContentTypeKey), ex.body)
    ensures !o.Relayed? ==> o == InternalError(ex.error)
  {
    match ex
    case SendFailed(e) => InternalError(e)
    case ReadFailed(e) => InternalError(e)
    case Reply(status, header, body) => Relayed(status, Get(header, ContentTypeKey), body)
  }

  /**
   * The handler registered for `route`, with a failure of `http.NewRequest`
   * answered by the 500 that lines 113-114 write. The code as written ends
   * the process there instead: see `HandleAsWritten`.
   */
  function Handle(route: Route, req: Inbound, env: Env): (h: Handled)
    ensures !h.outcome.Fatal?
    ensures h.effects.keyLoadAttempted <==> route.prefix != AuthPrefix
    ensures h.effects.verifiedToken.Some? ==>
              env.keyLoads && h.effects.verifiedToken == AuthorizationToken(req.header)
    ensures h.effects.sent.Some? ==>
              && h.effects.sent.value.verb == req.verb
              && h.effects.sent.value.url == route.dest + req.params
              && h.effects.sent.value.body == req.body
              && h.effects.sent.value.header.Keys <= req.header.Keys
              && forall key :: Values(h.effects.sent.value.header, key) == Values(req.header, key)
    ensures h.outcome.Relayed? ==>
              && h.effects.sent.Some?
              && env.upstream(h.effects.sent.value).Reply?
              && h.outcome.status == env.upstream(h.effects.sent.value).status
              && h.outcome.contentType == Get(env.upstream(h.effects.sent.value).header, ContentTypeKey)
              && h.outcome.body == env.upstream(h.effects.sent.value).body
    ensures h.outcome.Unauthorized? ==>
              && h.effects.sent.None?
              && h.outcome.error == InvalidTokenMessage
              && h.effects.verifiedToken.Some?
              && !Accepted(env.verify(h.effects.verifiedToken.value))
    ensures route.prefix == AuthPrefix ==>
              h.effects.verifiedToken.None? && (h.outcome.InternalError? || h.outcome.Relayed?)
  {
    match Gate(route, req, env)
    case Halt(outcome, effects) => Handled(outcome, effects)
    case Admit(effects) =>
      match env.newRequest(req.verb, Target(route, req))
      case Some(err) => Handled(InternalError(err), effects)
      case None =>
        var out := Forwarded(route, req);
        Handled(Relay(env.upstream(out)), effects.(sent := Some(out)))
  }

  /** The handler exactly as written: a failure of `http.NewRequest` is `log.Fatalf`. */
  function HandleAsWritten(route: Route, req: Inbound, env: Env): (h: Handled)
    ensures h.outcome.Fatal? <==>
              Admitted(route, req, env) && env.newRequest(req.verb, Target(route, req)).Some?
    ensures h.outcome.Fatal? ==> h.effects.sent.None?
  {
    var gate := Gate(route, req, env);
    if gate.Admit? && env.newRequest(req.verb, Target(route, req)).Some? then
      Handled(Fatal(CreateRequestFailure + env.newRequest(req.verb, Target(route, req)).value), gate.effects)
    else
      Handle(route, req, env)
  }
}
