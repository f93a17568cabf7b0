/**
 * What the handler promises, stated over all inputs: how the token is cut
 * out of the `Authorization` header, which outcomes stop a request before
 * the upstream is called, and what is forwarded and relayed.
 */
module GatewayProperties {
  import opened Options
  import opened Text
  import opened Http
  import opened Gateway

  // ----- The token: the text between the first and the second colon -----

  /** There is a token exactly when the `Authorization` value holds a colon. */
  lemma TokenExistsIffColon(authorization: string)
    ensures TokenOf(authorization).Some? <==> ':' in authorization
  {
    SplitLength(authorization, ':');
  }

  /** Whatever follows the first colon, the token stops at the next colon. */
  lemma TokenBetweenColons(scheme: string, token: string, rest: string)
    requires ':' !in scheme && ':' !in token
    requires rest == [] || rest[0] == ':'
    ensures TokenOf(scheme + [':'] + token + rest) == Some(token)
  {
    assert scheme + [':'] + token + rest == scheme + [':'] + (token + rest);
    SplitFirst(scheme, ':', token + rest);
    if rest == [] {
      assert token + rest == token;
      SplitWhole(token, ':');
    } else {
      assert token + rest == token + [':'] + rest[1..];
      SplitFirst(token, ':', rest[1..]);
    }
  }

  /**
   * Every value that yields a token is a colon-free scheme, a colon, the
   * colon-free token, and a rest that is empty or starts with a colon.
   */
  lemma TokenDecomposition(authorization: string) returns (scheme: string, token: string, rest: string)
    requires TokenOf(authorization).Some?
    ensures TokenOf(authorization) == Some(token)
    ensures authorization == scheme + [':'] + token + rest
    ensures ':' !in scheme && ':' !in token
    ensures rest == [] || rest[0] == ':'
  {
    var i := IndexOf(authorization, ':').value;
    scheme := authorization[..i];
    var after := authorization[i + 1..];
    assert authorization == scheme + [':'] + after;
    SplitFirst(scheme, ':', after);
    rest := FirstPiece(after, ':');
    token := Split(after, ':')[0];
    assert authorization == scheme + [':'] + (token + rest);
  }

  /** Not everything after the first colon: the second colon ends the token. */
  lemma TokenStopsAtSecondColon()
    ensures TokenOf("Bearer:abc:def") == Some("abc")
  {
    TokenBetweenColons("Bearer", "abc", ":def");
    assert "Bearer" + [':'] + "abc" + ":def" == "Bearer:abc:def";
  }

  // ----- The gate: nothing reaches the upstream unless admitted -----

  /**
   * On the exempt prefix neither the key nor the verifier is consulted: the
   * handler's result does not depend on them, and the request is forwarded
   * whenever it can be built.
   */
  lemma AuthRouteIgnoresKeyAndVerifier(route: Route, req: Inbound, env: Env, keyLoads: bool, verify: string -> Verdict)
    requires route.prefix == AuthPrefix
    ensures Handle(route, req, env.(keyLoads := keyLoads, verify := verify)) == Handle(route, req, env)
    ensures Handle(route, req, env).effects.sent.Some? <==> env.newRequest(req.verb, Target(route, req)).None?
  {
  }

  /**
   * On any other prefix a key that fails to load ends the handler with no
   * response, before the header is looked at or anything is sent.
   */
  lemma KeyFailureWritesNothing(route: Route, req: Inbound, env: Env)
    requires route.prefix != AuthPrefix && !env.keyLoads
    ensures Handle(route, req, env) == Handled(NoResponse, Effects(true, None, None))
  {
  }

  /**
   * With the key loaded, an `Authorization` value without a colon (an absent
   * or empty header included) makes the index [1] fail: the handler panics
   * and sends nothing.
   */
  lemma MissingColonPanics(route: Route, req: Inbound, env: Env)
    requires route.prefix != AuthPrefix && env.keyLoads
    requires ':' !in Get(req.header, AuthorizationKey)
    ensures Handle(route, req, env) == Handled(Panic(IndexPanicMessage), Effects(true, None, None))
  {
    TokenExistsIffColon(Get(req.header, AuthorizationKey));
  }

  /** A request with no `Authorization` header at all takes the panic path. */
  lemma AbsentHeaderPanics(route: Route, req: Inbound, env: Env)
    requires route.prefix != AuthPrefix && env.keyLoads
    requires AuthorizationKey !in req.header
    ensures Handle(route, req, env).outcome == Panic(IndexPanicMessage)
    ensures Handle(route, req, env).effects.sent.None?
  {
    MissingColonPanics(route, req, env);
  }

  /** A token the verifier rejects, by parse error or by `!token.Valid`, gets a 401 and no upstream call. */
  lemma RejectedTokenUnauthorized(route: Route, req: Inbound, env: Env, token: string)
    requires route.prefix != AuthPrefix && env.keyLoads
    requires AuthorizationToken(req.header) == Some(token)
    requires env.verify(token).parseError.Some? || !env.verify(token).valid
    ensures Handle(route, req, env) == Handled(Unauthorized(InvalidTokenMessage), Effects(true, Some(token), None))
  {
  }

  /** Which inputs lead to each of the outcomes that stop a request before it is forwarded. */
  lemma EarlyOutcomes(route: Route, req: Inbound, env: Env)
    ensures Handle(route, req, env).outcome.NoResponse? <==> route.prefix != AuthPrefix && !env.keyLoads
    ensures Handle(route, req, env).outcome.Panic? <==>
              route.prefix != AuthPrefix && env.keyLoads && ':' !in Get(req.header, AuthorizationKey)
    ensures Handle(route, req, env).outcome.Unauthorized? <==>
              && route.prefix != AuthPrefix && env.keyLoads
              && AuthorizationToken(req.header).Some?
              && !Accepted(env.verify(AuthorizationToken(req.header).value))
  {
    TokenExistsIffColon(Get(req.header, AuthorizationKey));
  }

  // ----- Forwarding and relaying -----

  /**
   * A request is sent upstream exactly when the gate admits it and it can be
   * built, and what is sent is the inbound request retargeted to `dest + params`.
   */
  lemma SentIffAdmittedAndBuilt(route: Route, req: Inbound, env: Env)
    ensures Handle(route, req, env).effects.sent.Some? <==>
              Admitted(route, req, env) && env.newRequest(req.verb, Target(route, req)).None?
    ensures Handle(route, req, env).effects.sent.Some? ==>
              Handle(route, req, env).effects.sent == Some(Forwarded(route, req))
  {
  }

  /** The forwarded header holds, for every key, the inbound values in order, and no other key. */
  lemma ForwardedHeaderPreserved(route: Route, req: Inbound, key: string)
    ensures Values(Forwarded(route, req).header, key) == Values(req.header, key)
    ensures key !in req.header ==> key !in Forwarded(route, req).header
  {
  }

  /** A failed send or a failed body read is a 500 with the error text, and nothing is relayed. */
  lemma UpstreamFailureIsInternalError(route: Route, req: Inbound, env: Env)
    requires Admitted(route, req, env) && env.newRequest(req.verb, Target(route, req)).None?
    requires !env.upstream(Forwarded(route, req)).Reply?
    ensures Handle(route, req, env).outcome == InternalError(env.upstream(Forwarded(route, req)).error)
  {
  }

  /** On success the caller receives the upstream status, `Content-Type` and body unchanged. */
  lemma ReplyRelayedVerbatim(route: Route, req: Inbound, env: Env, status: int, header: Header, body: seq<byte>)
    requires Admitted(route, req, env) && env.newRequest(req.verb, Target(route, req)).None?
    requires env.upstream(Forwarded(route, req)) == Reply(status, header, body)
    ensures Handle(route, req, env).outcome == Relayed(status, Get(header, ContentTypeKey), body)
  {
  }

  // ----- The handler as written, and where it differs -----

  /** The two handlers differ only where `http.NewRequest` fails on an admitted request. */
  lemma HandleAgreesUnlessBuildFails(route: Route, req: Inbound, env: Env)
    requires !Admitted(route, req, env) || env.newRequest(req.verb, Target(route, req)).None?
    ensures HandleAsWritten(route, req, env) == Handle(route, req, env)
  {
  }

  /**
   * Where `http.NewRequest` fails, the code as written ends the process and
   * the 500 after `log.Fatalf` is never written; the corrected handler writes it.
   */
  lemma BuildFailureEndsProcess(route: Route, req: Inbound, env: Env, err: string)
    requires Admitted(route, req, env)
    requires env.newRequest(req.verb, Target(route, req)) == Some(err)
    ensures HandleAsWritten(route, req, env).outcome == Fatal(CreateRequestFailure + err)
    ensures HandleAsWritten(route, req, env).effects.sent.None?
    ensures Handle(route, req, env).outcome == InternalError(err)
    ensures Handle(route, req, env).effects.sent.None?
  {
  }

  /**
   * A request to `/auth/%25zz`: gin hands the decoded remainder "/%zz" to the
   * handler, and `http.NewRequest` rejects "http://auth:8081/%zz" as an
   * invalid URL escape. The caller can stop the whole gateway this way.
   */
  lemma EscapedPathStopsGateway()
    ensures var route := Route(AuthPrefix, "http://auth:8081");
            var req := Inbound("GET", "/%zz", map[], []);
            var err := "parse \"http://auth:8081/%zz\": invalid URL escape \"%zz\"";
            var env := Env(false, token => Verdict(None, false),
                           (verb, url) => if url == "http://auth:8081/%zz" then Some(err) else None,
                           out => SendFailed(""));
            && HandleAsWritten(route, req, env).outcome == Fatal(CreateRequestFailure + err)
            && Handle(route, req, env).outcome == InternalError(err)
  {
  }
}
