# Account and OTP lifecycle of the Authentication server, in Dafny

This project models the credential service of the Authentication server:
registration, login, logout, e-mail verification by a one-time password
(OTP), password reset by a second OTP, and the session gate that admits a
request only with a valid `token` cookie. The handlers come from
`server/controller/authController.js` and the gate from
`server/middleware/userAuth.js`.

The user store is a sequence of records. A record's id is its position,
and `findOne({ email })` returns the first match in insertion order. A
record has `name`, `email`, `password` (a hash), `isAccountVerified`,
`verifyOtp`/`verifyOtpExpireAt` and `resetOtp`/`resetOtpExpireAt`. logout and
isAuthenticated only compute a reply and are functions. Every other handler
is modelled twice:

- as a function in `AuthHandlers`. It maps the store before the request to
  an `Outcome`: the store after it, the mail handed to the transport and the
  reply `{ success, message? }` with the cookie it sets or clears;
- as a method of the class `AuthController.Controller`. It reads the record,
  assigns its fields one by one, saves it and only then appends the mail to
  `outbox`. Each method is proved to equal its function, and to keep the
  store invariant.

Inputs stand in for what the source reads from the outside world:
- `now` replaces `Date.now()`;
- `n`, with 100000 ≤ n ≤ 999999, replaces `Math.floor(100000 + Math.random() * 900000)`;
- `delivery` (`Delivered` or `DeliveryFailed(message)`) is how `transporter.sendMail` ends;
- `Config` holds `NODE_ENV`, `SENDER_EMAIL` and the two e-mail templates;
- the gate's `verify` parameter stands for `jwt.verify`.

The store invariant (`Users.StoreInvariant`) says three things:
- emails are unique;
- each OTP is either inactive (`""` with expiry 0) or a six-digit code with a positive expiry;
- a verified account has no pending verification code.

Every handler keeps this invariant. No handler removes a record, changes an
email or clears `isAccountVerified` (`AuthHandlers.StoreGrows`).

Behaviour kept as written:
- The reset window is `15 * 60 * 10000` ms: 9,000,000 ms, or 150 minutes,
  and the model keeps that constant (`AuthScenarios.ResetWindowIs150Minutes`).
- login's two messages, "Invalid Email" and "Invalid Password", say which
  credential was wrong. The model keeps them as they are.
- register looks the email up exactly as given; login looks up
  `email.toLowerCase()`. A user registered with capitals in the email can
  therefore log in only if the schema lowercases the email.
  `server/models/userModel.js` is not part of this model. The model stores
  the email exactly as given and says nothing about logging in under a
  mixed-case email (`AuthScenarios.RegisterThenLogin` requires a lower-case one).
- bcryptjs keys its hash on 72 bytes: the password's UTF-8 bytes and a
  zero byte, repeated to fill them. A password that differs from the stored
  one only after its 72nd byte therefore still logs in
  (`Credentials.OnlyKeyBytesCount`). Within 72 bytes, and without a zero
  character, different passwords never match (`Credentials.DistinctPasswordsDiffer`).
- The second substitution into an e-mail template inserts the user's
  email as a `replace` replacement string, so `$$`, `$&`, `` $` `` and `$'`
  in an address are expanded (`Templates.MatchedTextExpands`,
  `Templates.DoubleDollarExpands`).
- When the mail fails, the saved record stays and the reply is
  `success: false` with the mail error's message. In register, the session
  cookie has already been set on that failing response.
- A verification request with no `userId` is answered "User not found" by
  sendVerifyOtp (`findById(undefined)` finds nothing). verifyEmail reports
  "Missing Details" for a missing `userId`.
- The gate has three refusals: no token, a verification error (its message
  is the reply), and a payload without an id. On every path it either
  replies or calls `next` exactly once, and only `req.userId` changes.

## Model

| member | source | states |
|---|---|---|
| `Decimal.NatToString` | server/controller/authController.js:131 | `String(n)` of a non-negative integer: at least one character, all decimal digits, and a leading zero only for 0 |
| `Decimal.ParseRender` | server/controller/authController.js:131 | reading the decimal rendering back gives the number rendered (round trip) |
| `Decimal.RenderLength` | server/controller/authController.js:131 | a number with k+1 decimal digits renders to exactly k+1 characters |
| `Decimal.RenderInjective` | server/controller/authController.js:131 | distinct numbers render to distinct codes |
| `Otp.RenderOtp` | server/controller/authController.js:131 | for 100000 ≤ n ≤ 999999 the code is six digits with a non-zero first digit, and reads back as n |
| `Otp.CheckOtp` | server/controller/authController.js:170-176 | a code that is empty or differs is Invalid whatever the time; a matching code is Expired when `expireAt < now` and Accepted when `now <= expireAt` |
| `Templates.IndexOf` | server/controller/authController.js:143 | `indexOf`: the leftmost occurrence of the pattern, or none exactly when it does not occur |
| `Templates.Expand` | server/controller/authController.js:143 | a replacement string without `$` stands for itself |
| `Templates.ReplaceFirst` | server/controller/authController.js:143 | `replace` with a string pattern: unchanged when the pattern is absent; otherwise the text before the first occurrence, then the replacement with `$$`, `$&`, `` $` `` and `$'` expanded, then the text after it; a replacement without `$` goes in literally |
| `Templates.MatchedTextExpands` | server/controller/authController.js:143 | `$&` in the substituted email stands for the placeholder: `a$&b` into `<p>{{email}}</p>` gives `<p>a{{email}}b</p>` |
| `Templates.DoubleDollarExpands` | server/controller/authController.js:143 | `$$` in the substituted email stands for one `$`: `<p>{{email}}</p>` becomes `<p>$</p>` |
| `Templates.ReplaceFirstInserts` | server/controller/authController.js:143 | a replacement without `$` stands where the first occurrence of the pattern stood |
| `Templates.ReplaceFirstKeeps` | server/controller/authController.js:143 | replacing a pattern that shares no character with a substring keeps an occurrence of that substring |
| `AuthHandlers.FillTemplate` | server/controller/authController.js:143 | a template without placeholders is unchanged; a template with `{{otp}}` yields a body containing the six-digit code whatever email is substituted after it; in a template with only `{{email}}`, an email without `$` appears in the body |
| `AuthHandlers.WelcomeMail` | server/controller/authController.js:44-49 | from the sender, to the new email, subject "Welcome to New World", a plain-text body that contains the email |
| `AuthHandlers.VerifyOtpMail` | server/controller/authController.js:138-144 | from the sender, to the user's email, subject "Account Verification OTP", the filled verify template as HTML, which carries the code when the template has `{{otp}}` |
| `AuthHandlers.ResetOtpMail` | server/controller/authController.js:220-226 | from the sender, to the user's email, subject "Password Reset OTP", the filled reset template as HTML, which carries the code when the template has `{{otp}}` |
| `Credentials.EncodeChar` | server/controller/authController.js:31 | the UTF-8 bytes bcryptjs hashes for one character: one to four, their number announced by the first byte, decoding back to the character, a zero byte only for the NUL character |
| `Credentials.Utf8` | server/controller/authController.js:31 | a string's UTF-8 encoding: at least one byte per character, exactly one for ASCII, a zero byte exactly when the string holds NUL |
| `Credentials.Utf8Append` | server/controller/authController.js:31 | the encoding of a concatenation is the concatenation of the encodings |
| `Credentials.Utf8Injective` | server/controller/authController.js:31 | different strings have different encodings |
| `Credentials.Key` | server/controller/authController.js:31 | the 72 key bytes: a password shorter than 72 bytes is followed by a zero byte, a longer one is cut after 72 bytes |
| `Credentials.Hash` | server/controller/authController.js:31 | the stored hash has cost 10; the hashed password matches it, and another password matches it exactly when its 72 key bytes are the same |
| `Credentials.OnlyKeyBytesCount` | server/controller/authController.js:76 | once a password fills 72 bytes, whatever follows it is ignored by compare |
| `Credentials.DistinctPasswordsDiffer` | server/controller/authController.js:76 | two different passwords of at most 72 bytes without a NUL character never match each other's hash |
| `Session.SessionCookieOptions` | server/controller/authController.js:36-41 | the session cookie is httpOnly, secure exactly in production, same-site none exactly in production (else strict), maxAge 604,800,000 ms |
| `Session.ClearCookieOptions` | server/controller/authController.js:103-107 | logout clears the cookie with the session cookie's flags and no maxAge |
| `Session.CrossSiteOnlyWhenSecure` | server/controller/authController.js:38-39 | a cookie with same-site none is always secure |
| `Users.NewUser` | server/controller/authController.js:32 | the new record has the given name, email and hash, is unverified, has both codes inactive and is well formed |
| `Users.FindByEmail` | server/controller/authController.js:25 | `findOne({ email })`: the first record whose email is exactly the one given, or none exactly when no record has it |
| `Users.FindById` | server/controller/authController.js:120 | `findById`: finds a record exactly when the id is present and stored |
| `Users.ToLowerAscii` | server/controller/authController.js:69 | `toLowerCase()`: same length, no capital letters left, and each capital moved to its lower-case letter |
| `Users.FindByEmailUnique` | server/controller/authController.js:25-29 | with unique emails, the lookup finds the one record holding the email |
| `Users.FindAppended` | server/controller/authController.js:32-33 | a record saved under an email no one holds is what a later lookup of that email finds |
| `Users.FindAfterUpdate` | server/controller/authController.js:215-218 | saving a record without changing its email changes no email lookup |
| `AuthHandlers.AfterMail` | server/controller/authController.js:51-56 | the reply after the mail: the success reply when delivered, else `success: false` with the send's error message and the same cookie |
| `AuthHandlers.RegisterOutcome` | server/controller/authController.js:17-57 | missing field: "Missing Details"; email stored: 'User already exist', store unchanged in both; otherwise a new unverified record with the password's hash is appended, the welcome mail is sent, and the reply is `{ success: true }` with the session cookie for the new id when the mail is delivered, else `success: false` with the send's message and the same cookie |
| `AuthHandlers.LoginReply` | server/controller/authController.js:60-98 | missing field, then 'Invalid Email' for no user under the lower-cased email, then "Invalid Password" when the hash does not match; success exactly when it matches, with a session cookie for that user |
| `AuthHandlers.LogoutReply` | server/controller/authController.js:101-114 | always success with "Logged Out", clearing the cookie with the session flags and no maxAge |
| `AuthHandlers.IsAuthenticatedReply` | server/controller/authController.js:191-197 | always success, no message, no cookie |
| `AuthHandlers.SendVerifyOtpOutcome` | server/controller/authController.js:116-152 | unknown user: "User not found"; verified account: "Account already verified", store unchanged in both; otherwise only the record's verify pair becomes the six-digit code for n and now + 86,400,000, the code is mailed, and success holds exactly when delivered |
| `AuthHandlers.VerifyEmailOutcome` | server/controller/authController.js:155-188 | checks missing fields, then the user, then Invalid, then Expired, each failure leaving the store unchanged; on acceptance the record is verified and its verify pair cleared, nothing else changes |
| `AuthHandlers.SendResetOtpOutcome` | server/controller/authController.js:200-233 | missing email: 'Email is Required'; exact-match lookup fails: 'User not found'; otherwise only the reset pair becomes the six-digit code and now + 9,000,000, the code is mailed, success exactly when delivered |
| `AuthHandlers.ResetPasswordOutcome` | server/controller/authController.js:237-270 | missing fields, then user, then 'Invalid Otp', then 'OTP Expired', each leaving the store unchanged; on acceptance the password becomes the new password's hash and the reset pair is cleared |
| `AuthHandlers.UpdateKeepsInvariant` | server/controller/authController.js:136 | saving a well-formed record without changing its email keeps the store invariant |
| `AuthHandlers.RegisterKeepsInvariant` | server/controller/authController.js:25-33 | register keeps emails unique and every record well formed |
| `AuthHandlers.SendVerifyOtpKeepsInvariant` | server/controller/authController.js:126-136 | issuing a verification code keeps the invariant: it is refused for a verified account |
| `AuthHandlers.VerifyEmailKeepsInvariant` | server/controller/authController.js:178-182 | a successful verification keeps the invariant |
| `AuthHandlers.SendResetOtpKeepsInvariant` | server/controller/authController.js:213-218 | issuing a reset code keeps the invariant |
| `AuthHandlers.ResetPasswordKeepsInvariant` | server/controller/authController.js:258-264 | a successful reset keeps the invariant |
| `AuthController.Controller.Register` | server/controller/authController.js:17-57 | the record is created and saved before the mail is queued; the new store, outbox and reply are those of `RegisterOutcome`, and the invariant is kept |
| `AuthController.Controller.Login` | server/controller/authController.js:60-98 | changes nothing and replies as `LoginReply` |
| `AuthController.Controller.SendVerifyOtp` | server/controller/authController.js:116-152 | assigns the code and expiry, saves, then queues the mail; the result is that of `SendVerifyOtpOutcome` |
| `AuthController.Controller.VerifyEmail` | server/controller/authController.js:155-188 | sets the three fields and saves; the result is that of `VerifyEmailOutcome` and no mail is sent |
| `AuthController.Controller.SendResetOtp` | server/controller/authController.js:200-233 | assigns the reset pair, saves, then queues the mail; the result is that of `SendResetOtpOutcome` |
| `AuthController.Controller.ResetPassword` | server/controller/authController.js:237-270 | assigns the new hash and clears the pair, saves; the result is that of `ResetPasswordOutcome` |
| `UserAuth.TokenOf` | server/middleware/userAuth.js:4 | the `token` cookie's value exactly when the request carries that cookie |
| `UserAuth.Authorize` | server/middleware/userAuth.js:3-23 | no token: 'Not Authorized Login Again'; verification error: its message; payload without id: 'Not Authorized Login Again'; admits exactly when the token verifies to an id, and then that id |
| `UserAuth.Gate` | server/middleware/userAuth.js:3-23 | on every path exactly one of "reply" and "call next once"; a refusal leaves `userId` unchanged, an admission sets it to the decoded id; body and cookies unchanged |
| `AuthScenarios.RegisterThenLogin` | server/controller/authController.js:31-35 | after registering under a lower-case email, login with the same password succeeds, delivered welcome mail or not, with a session for the new id |
| `AuthScenarios.RegisterTwiceConflicts` | server/controller/authController.js:25-29 | a second registration under the same email is refused with 'User already exist' and changes nothing |
| `AuthScenarios.VerifyCodeIsSingleUse` | server/controller/authController.js:170-183 | a code issued and submitted within the day verifies the account and changes nothing else; the same code is then 'Invalid OTP' and a new code is refused as 'Account already verified' |
| `AuthScenarios.VerifyCodeExpires` | server/controller/authController.js:170-176 | after the day the right code is 'OTP Expired', and a wrong code is still 'Invalid OTP' |
| `AuthScenarios.ResetRoundTrip` | server/controller/authController.js:213-264 | issuing a reset code and using it within the window succeeds; the record ends with the new password's hash and both reset fields cleared, and nothing else changes |
| `AuthScenarios.ResetReplacesPassword` | server/controller/authController.js:250-264 | a reset within the window succeeds and leaves the verification state alone; then the new password logs in, the old one logs in exactly when its 72 key bytes equal the new one's and otherwise gets "Invalid Password", and the code is 'Invalid Otp' |
| `AuthScenarios.ResetLocksOutOldPassword` | server/controller/authController.js:258-264 | after a reset, an old password that differs from the new one within 72 bytes and holds no NUL gets "Invalid Password" |
| `AuthScenarios.VerifiedAccountRejectsEveryCode` | server/controller/authController.js:170-172 | in a store keeping the invariant, every code submitted for a verified account is 'Invalid OTP' and nothing changes |
| `AuthScenarios.ResetCodeGoesToTheHolder` | server/controller/authController.js:208-218 | in a store keeping the invariant, a reset requested for a record's email issues the code to that record alone and mails that email |
| `AuthScenarios.LoginChecksTheHolder` | server/controller/authController.js:69-80 | in a store keeping the invariant, login under a lower-case email succeeds exactly when the password matches the one record holding it, with a session for that record |
| `AuthScenarios.ResetWindowIs150Minutes` | server/controller/authController.js:216 | a reset code is accepted 150 minutes after issue and 'OTP Expired' one millisecond later |
| `AuthScenarios.VerifyMailCarriesStoredCode` | server/controller/authController.js:131-146 | the verification mail goes to the user's email and its body contains the code stored in the record |
| `AuthScenarios.ResetMailCarriesStoredCode` | server/controller/authController.js:213-227 | the reset mail goes to the email given and its body contains the code stored in the record |
| `AuthScenarios.SignUpFlow` | server/middleware/userAuth.js:10-19 | register, login, a gate that verifies the issued token, then issuing and submitting a code in time verifies the new account; that the token verifies to login's claim is a premise, since signing is not modelled |

## Left out

- `client/src/context/AppContext.jsx`: a React cache of login state, with HTTP calls and toasts. It has no invariants of its own.
- bcrypt: a hash is modelled as its cost factor and the 72 key bytes it is computed from. The random salt, the Blowfish rounds and the hash's one-wayness are not modelled: two passwords match the same hash exactly when their key bytes agree.
- JWT: signing is the `SessionClaim` placed in the cookie (the id and the 7-day lifetime). Verification is the `verify` parameter of the gate; signature checking and token expiry live inside it.
- nodemailer and SMTP: the transport's configuration and the delivery itself are outside the model. `delivery` gives the result of the send.
- The e-mail templates live in `server/config/emailTemplets.js`, which is not part of this model. They are parameters in `Config`.
- `Math.random` and `Date.now`: replaced by the integer inputs `n` and `now`.
- Mongoose persistence: `findOne`, `findById`, `save` and `bcrypt.hash`/`compare` are modelled as never throwing. The catch-all `error.message` replies are modelled only for the mail send. A malformed id that would make `findById` throw is not modelled.
- `server/models/userModel.js` is not part of this model. The record's defaults (`false`, `''`, `0`) are assumed: they are the cleared values the controller itself writes and tests (authController.js:170, 179-180, 250, 261-262). Any schema-level normalisation of emails is not modelled.
- Concurrent requests on the same record: each handler is one atomic step.
- The HTTP framework, routing, status codes and JSON transport: replies are values.
- `Users.ToLowerAscii`: does not model JavaScript's Unicode case mapping, only A–Z.
- Request fields that are not strings (for instance a numeric `otp` in the JSON body) are not modelled. A field is missing, empty or a string.
