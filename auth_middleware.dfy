/**
 * The bearer-token check in front of every task route (src/middleware/authMiddleware.ts).
 * Token verification (signature and expiry, src/utils/jwt.ts) is the parameter `verify`:
 * the payload of a good token, None for any bad one.
 */
module AuthMiddleware {
  import opened Types
  import opened Http

  const BearerPrefix: string := "Bearer "

  const NoToken: string := "No token provided"
  const BadToken: string := "Invalid or expired token"

  datatype AuthOutcome = Unauthorized(response: Response) | Authenticated(user: JwtPayload)

  /**
   * The decision over the Authorization header: a missing header or one without the exact,
   * case-sensitive `Bearer ` prefix is refused before any verification; otherwise the rest
   * of the header is the token, and its verified payload becomes the caller's identity.
   */
  function Authenticate(authorization: Option<string>, verify: string -> Option<JwtPayload>): (r: AuthOutcome)
    ensures r.Unauthorized? ==> r.response.status == 401
    ensures r.Authenticated? <==>
      authorization.Some? && BearerPrefix <= authorization.value
      && verify(authorization.value[|BearerPrefix|..]).Some?
    ensures r.Authenticated? ==> Some(r.user) == verify(authorization.value[|BearerPrefix|..])
  {
    if authorization.None? || authorization.value == "" || !(BearerPrefix <= authorization.value) then
      Unauthorized(Error(401, NoToken))
    else
      var token := authorization.value[|BearerPrefix|..];
      var payload := verify(token);
      if payload.None? then Unauthorized(Error(401, BadToken)) else Authenticated(payload.value)
  }

  /** A header the client builds as `Bearer <token>` hands exactly `<token>` to verification. */
  lemma BearerRoundTrip(token: string, verify: string -> Option<JwtPayload>)
    ensures Authenticate(Some(BearerPrefix + token), verify) ==
      match verify(token)
      case Some(p) => Authenticated(p)
      case None => Unauthorized(Error(401, BadToken))
  {
    assert (BearerPrefix + token)[|BearerPrefix|..] == token;
  }

  /** Without the prefix nothing is verified: the answer is the fixed "No token provided" 401. */
  lemma MalformedHeaderRefused(authorization: Option<string>, verify: string -> Option<JwtPayload>)
    requires authorization.None? || !(BearerPrefix <= authorization.value)
    ensures Authenticate(authorization, verify) == Unauthorized(Error(401, NoToken))
  {
  }

  /** The part of an Express request the middleware reads and writes. */
  class Request {
    const authorization: Option<string>
    var user: Option<JwtPayload>

    constructor (authorization: Option<string>)
      ensures this.authorization == authorization && user == None
    {
      this.authorization := authorization;
      user := None;
    }
  }

  /** Either `next()` runs, or a response is sent and the chain stops. */
  datatype Continuation = CallNext | Respond(response: Response)

  /** `authMiddleware(req, res, next)`: attaches the verified identity to `req.user` on success. */
  method Apply(req: Request, verify: string -> Option<JwtPayload>) returns (k: Continuation)
    modifies req`user
    ensures k.CallNext? <==> Authenticate(req.authorization, verify).Authenticated?
    ensures k.CallNext? ==> req.user == Some(Authenticate(req.authorization, verify).user)
    ensures k.Respond? ==> k.response == Authenticate(req.authorization, verify).response
    ensures k.Respond? ==> req.user == old(req.user)
  {
    var outcome := Authenticate(req.authorization, verify);
    match outcome {
      case Unauthorized(response) =>
        k := Respond(response);
      case Authenticated(payload) =>
        req.user := Some(payload);
        k := CallNext;
    }
  }
}
