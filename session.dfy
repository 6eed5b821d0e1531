/**
 * The session token and its cookie, as register, login and logout in
 * server/controller/authController.js write them: a token signed over
 * `{ id: user._id }` with `expiresIn: '7d'`, carried in the cookie `token`.
 */
module Session {
  import opened Prelude

  /** Name of the cookie that carries the session token. */
  const TokenCookie: string := "token"

  /** `7 * 24 * 60 * 60 * 1000` ms: the cookie's maxAge and the token's lifetime. */
  const SessionMaxAgeMs: nat := 7 * 24 * 60 * 60 * 1000

  /** What `jwt.sign` is asked to sign: the user's id and the 7-day lifetime. */
  datatype SessionClaim = SessionClaim(id: UserId, expiresInMs: nat)

  datatype SameSite = SameSiteNone | SameSiteStrict

  /** Options passed to `res.cookie` / `res.clearCookie`; `maxAge` is absent when clearing. */
  datatype CookieOptions = CookieOptions(httpOnly: bool, secure: bool, sameSite: SameSite, maxAge: Option<nat>)

  /** `process.env.NODE_ENV === 'production'`. */
  predicate IsProduction(nodeEnv: Option<string>)
  {
    nodeEnv == Some("production")
  }

  /** The claim signed for user `id` at register and login. */
  function ClaimFor(id: UserId): SessionClaim
  {
    SessionClaim(id, SessionMaxAgeMs)
  }

  /**
   * Options of the session cookie: never readable by scripts, seven days
   * long; secure and cross-site in production, same-site strict otherwise.
   */
  function SessionCookieOptions(production: bool): (o: CookieOptions)
    ensures o.httpOnly
    ensures o.secure <==> production
    ensures o.sameSite == SameSiteNone <==> production
    ensures o.maxAge == Some(SessionMaxAgeMs)
  {
    CookieOptions(true, production, if production then SameSiteNone else SameSiteStrict, Some(SessionMaxAgeMs))
  }

  /** Options of `res.clearCookie('token', ...)` in logout: the session flags without maxAge. */
  function ClearCookieOptions(production: bool): (o: CookieOptions)
    ensures o == SessionCookieOptions(production).(maxAge := None)
  {
    CookieOptions(true, production, if production then SameSiteNone else SameSiteStrict, None)
  }

  /** A cross-site cookie is always a secure one, as browsers require. */
  lemma CrossSiteOnlyWhenSecure(production: bool)
    ensures SessionCookieOptions(production).sameSite == SameSiteNone ==> SessionCookieOptions(production).secure
    ensures ClearCookieOptions(production).sameSite == SameSiteNone ==> ClearCookieOptions(production).secure
  {
  }
}
