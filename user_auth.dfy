/**
 * The session gate of server/middleware/userAuth.js: read the `token`
 * cookie, verify it, and either answer the request with a failure or set
 * `req.userId` and pass the request on to the next handler.
 * Token verification (`jwt.verify`) is foreign code and is a parameter.
 */
module UserAuth {
  import opened Prelude
  import opened Session
  import opened Http

  /**
   * What `jwt.verify(token, secret)` yields: the payload's id (None when
   * the payload has no truthy `id`), or the message of the error it throws
   * for a bad signature, a malformed or an expired token.
   */
  datatype Verified = Decoded(id: Option<UserId>) | Thrown(message: string)

  /** The gate's decision for one request. */
  datatype Decision = Deny(message: string) | Allow(id: UserId)

  const NotAuthorized: string := "Not Authorized Login Again"

  /** `const { token } = req.cookies`: the `token` cookie's value, when the request carries one. */
  function TokenOf(cookies: map<string, string>): (t: Option<string>)
    ensures t.Some? <==> TokenCookie in cookies
    ensures t.Some? ==> t.value == cookies[TokenCookie]
  {
    if TokenCookie in cookies then Some(cookies[TokenCookie]) else None
  }

  /**
   * The four ways through the gate, in the source's order: no token, a
   * token that fails verification, a payload without an id, or acceptance
   * of exactly the id the verifier decoded.
   */
  function Authorize(cookies: map<string, string>, verify: string -> Verified): (d: Decision)
    ensures !Truthy(TokenOf(cookies)) ==> d == Deny(NotAuthorized)
    ensures Truthy(TokenOf(cookies)) && verify(TokenOf(cookies).value).Thrown? ==>
              d == Deny(verify(TokenOf(cookies).value).message)
    ensures Truthy(TokenOf(cookies)) && verify(TokenOf(cookies).value) == Decoded(None) ==>
              d == Deny(NotAuthorized)
    ensures d.Allow? <==> Truthy(TokenOf(cookies)) && verify(TokenOf(cookies).value).Decoded?
                          && verify(TokenOf(cookies).value).id.Some?
    ensures d.Allow? ==> verify(TokenOf(cookies).value) == Decoded(Some(d.id))
  {
    var token := TokenOf(cookies);
    if !Truthy(token) then Deny(NotAuthorized)
    else
      match verify(token.value)
      case Thrown(message) => Deny(message)
      case Decoded(id) =>
        if id.None? then Deny(NotAuthorized) else Allow(id.value)
  }

  /** The request object the gate reads and writes. */
  class Request {
    var cookies: map<string, string>
    var body: map<string, string>
    var userId: Option<UserId>

    constructor(cookies: map<string, string>, body: map<string, string>)
      ensures this.cookies == cookies && this.body == body && userId == None
    {
      this.cookies := cookies;
      this.body := body;
      userId := None;
    }
  }

  /**
   * The middleware. `response` is what it sends with `res.json`;
   * `nextCalls` counts its calls of `next()`. On every path exactly one of
   * the two happens, and only `req.userId` may change.
   */
  method Gate(req: Request, verify: string -> Verified) returns (response: Option<Reply>, nextCalls: nat)
    modifies req`userId
    ensures (response.Some? && nextCalls == 0) || (response.None? && nextCalls == 1)
    ensures req.body == old(req.body) && req.cookies == old(req.cookies)
    ensures match Authorize(req.cookies, verify)
            case Deny(message) => response == Some(Failure(message)) && req.userId == old(req.userId)
            case Allow(id) => response.None? && nextCalls == 1 && req.userId == Some(id)
  {
    var token := TokenOf(req.cookies);
    if !Truthy(token) {
      return Some(Failure(NotAuthorized)), 0;
    }
    match verify(token.value) {
      case Thrown(message) =>
        return Some(Failure(message)), 0;
      case Decoded(id) =>
        if id.None? {
          return Some(Failure(NotAuthorized)), 0;
        }
        req.userId := Some(id.value);
        response, nextCalls := None, 1;
    }
  }
}
