/**
 * What a handler sends back: the JSON body `{ success, message? }` and the
 * cookie it sets or clears on the response.
 */
module Http {
  import opened Prelude
  import opened Session

  datatype CookieAction =
    | NoCookie
    | SetToken(claim: SessionClaim, options: CookieOptions)
    | ClearToken(options: CookieOptions)

  /** `res.json({ success, message })`; `message` is absent where the source omits it. */
  datatype Reply = Reply(success: bool, message: Option<string>, cookie: CookieAction)

  /** `res.json({ success: false, message })` with no cookie touched. */
  function Failure(message: string): Reply
  {
    Reply(false, Some(message), NoCookie)
  }
}
