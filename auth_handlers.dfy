/**
 * The request handlers of server/controller/authController.js as functions
 * of the store before the request: each gives the store after it, the mail
 * handed to the transport (if any) and the reply. Every handler runs its
 * checks in the source's order and returns at the first that fails, with
 * the store unchanged; the handlers that mail save the record first, so a
 * failed send still leaves the saved record in place.
 */
module AuthHandlers {
  import opened Prelude
  import opened Decimal
  import opened Credentials
  import opened Otp
  import opened Templates
  import opened Session
  import opened Http
  import opened Users

  /** Environment the controller reads: NODE_ENV, SENDER_EMAIL and the two e-mail templates. */
  datatype Config = Config(nodeEnv: Option<string>, senderEmail: string, verifyTemplate: string, resetTemplate: string)

  datatype MailBody = Text(text: string) | Html(html: string)

  /** The `mailOption` object passed to `transporter.sendMail`. */
  datatype Mail = Mail(from: string, to: string, subject: string, body: MailBody)

  /** How `transporter.sendMail` ends: delivered, or rejected with an error message. */
  datatype Delivery = Delivered | DeliveryFailed(message: string)

  datatype Outcome = Outcome(users: seq<User>, mail: Option<Mail>, reply: Reply)

  /** No record disappears, no email changes and no verified account becomes unverified. */
  predicate StoreGrows(before: seq<User>, after: seq<User>)
  {
    && |before| <= |after|
    && forall i :: 0 <= i < |before| ==>
         after[i].email == before[i].email
         && (before[i].isAccountVerified ==> after[i].isAccountVerified)
  }

  /**
   * `template.replace("{{otp}}", otp).replace("{{email}}", email)`. A
   * template without placeholders is sent as it is; the code of a template
   * with an `{{otp}}` placeholder reaches the body whatever the address
   * substituted after it; so does an address free of `$` in a template
   * without a code placeholder.
   */
  function FillTemplate(template: string, otp: string, email: string): (r: string)
    ensures !Contains(template, "{{otp}}") && !Contains(template, "{{email}}") ==> r == template
    ensures Contains(template, "{{otp}}") && IsOtpCode(otp) ==> Contains(r, otp)
    ensures !Contains(template, "{{otp}}") && Contains(template, "{{email}}") && '$' !in email ==>
              Contains(r, email)
  {
    if Contains(template, "{{otp}}") && IsOtpCode(otp) then
      CodeSurvivesEmail(template, otp, email);
      ReplaceFirst(ReplaceFirst(template, "{{otp}}", otp), "{{email}}", email)
    else if !Contains(template, "{{otp}}") && Contains(template, "{{email}}") && '$' !in email then
      var i := IndexOf(template, "{{email}}").value;
      ReplaceFirstInserts(template, "{{email}}", email, i);
      ReplaceFirst(ReplaceFirst(template, "{{otp}}", otp), "{{email}}", email)
    else
      ReplaceFirst(ReplaceFirst(template, "{{otp}}", otp), "{{email}}", email)
  }

  /** The welcome mail register sends: plain text that names the new account's address. */
  function WelcomeMail(cfg: Config, email: string): (m: Mail)
    ensures m.from == cfg.senderEmail && m.to == email && m.subject == "Welcome to New World"
    ensures m.body.Text? && Contains(m.body.text, email)
  {
    var greeting := "Welcome to Nikhil Website. Your account has been created with email id: ";
    assert OccursAt(greeting + email, email, |greeting|);
    Mail(cfg.senderEmail, email, "Welcome to New World", Text(greeting + email))
  }

  /** The verification mail: the verify template filled in, so it carries the code when the template asks for it. */
  function VerifyOtpMail(cfg: Config, email: string, otp: string): (m: Mail)
    ensures m.from == cfg.senderEmail && m.to == email && m.subject == "Account Verification OTP"
    ensures m.body.Html? && m.body.html == FillTemplate(cfg.verifyTemplate, otp, email)
    ensures Contains(cfg.verifyTemplate, "{{otp}}") && IsOtpCode(otp) ==> Contains(m.body.html, otp)
  {
    Mail(cfg.senderEmail, email, "Account Verification OTP", Html(FillTemplate(cfg.verifyTemplate, otp, email)))
  }

  /** The reset mail: the reset template filled in, so it carries the code when the template asks for it. */
  function ResetOtpMail(cfg: Config, email: string, otp: string): (m: Mail)
    ensures m.from == cfg.senderEmail && m.to == email && m.subject == "Password Reset OTP"
    ensures m.body.Html? && m.body.html == FillTemplate(cfg.resetTemplate, otp, email)
    ensures Contains(cfg.resetTemplate, "{{otp}}") && IsOtpCode(otp) ==> Contains(m.body.html, otp)
  {
    Mail(cfg.senderEmail, email, "Password Reset OTP", Html(FillTemplate(cfg.resetTemplate, otp, email)))
  }

  /**
   * The code put in for `{{otp}}` survives the `{{email}}` substitution
   * after it: the code's digits cannot be part of an `{{email}}` placeholder.
   */
  lemma CodeSurvivesEmail(template: string, code: string, email: string)
    requires Contains(template, "{{otp}}")
    requires IsOtpCode(code)
    ensures Contains(ReplaceFirst(ReplaceFirst(template, "{{otp}}", code), "{{email}}", email), code)
  {
    var i := IndexOf(template, "{{otp}}").value;
    forall c | c in code
      ensures c !in "{{email}}" && c != '$'
    {
      assert IsDigit(c);
    }
    ReplaceFirstInserts(template, "{{otp}}", code, i);
    ReplaceFirstKeeps(ReplaceFirst(template, "{{otp}}", code), "{{email}}", email, code, i);
  }

  /**
   * The reply of a handler whose last step is the mail: the success reply,
   * or, when the send fails, `success: false` with the send's error message
   * (any cookie already set on the response stays set).
   */
  function AfterMail(delivery: Delivery, ok: Reply): (r: Reply)
    ensures r.cookie == ok.cookie
    ensures r.success <==> ok.success && delivery.Delivered?
    ensures delivery.Delivered? ==> r == ok
    ensures delivery.DeliveryFailed? ==> r.message == Some(delivery.message)
  {
    match delivery
    case Delivered => ok
    case DeliveryFailed(m) => ok.(success := false, message := Some(m))
  }

  // ---------------------------------------------------------------- register

  /** register gets past its two checks: all fields present, email not yet stored. */
  predicate CanRegister(users: seq<User>, name: Option<string>, email: Option<string>, password: Option<string>)
  {
    Truthy(name) && Truthy(email) && Truthy(password) && FindByEmail(users, email.value).None?
  }

  function RegisterOutcome(cfg: Config, users: seq<User>, name: Option<string>, email: Option<string>,
                           password: Option<string>, delivery: Delivery): (o: Outcome)
    ensures !(Truthy(name) && Truthy(email) && Truthy(password)) ==>
              o == Outcome(users, None, Failure("Missing Details"))
    ensures Truthy(name) && Truthy(email) && Truthy(password) && FindByEmail(users, email.value).Some? ==>
              o == Outcome(users, None, Failure("User already exist"))
    ensures o.users != users <==> CanRegister(users, name, email, password)
    ensures CanRegister(users, name, email, password) ==>
              && o.users == users + [NewUser(name.value, email.value, Hash(password.value))]
              && Matches(password.value, o.users[|users|].password)
              && o.mail == Some(WelcomeMail(cfg, email.value))
              && o.reply == AfterMail(delivery, Reply(true, None, SetToken(ClaimFor(|users|),
                                                                        SessionCookieOptions(IsProduction(cfg.nodeEnv)))))
    ensures o.reply.success <==> CanRegister(users, name, email, password) && delivery.Delivered?
    ensures StoreGrows(users, o.users)
  {
    if !Truthy(name) || !Truthy(email) || !Truthy(password) then
      Outcome(users, None, Failure("Missing Details"))
    else if FindByEmail(users, email.value).Some? then
      Outcome(users, None, Failure("User already exist"))
    else
      var user := NewUser(name.value, email.value, Hash(password.value));
      var cookie := SetToken(ClaimFor(|users|), SessionCookieOptions(IsProduction(cfg.nodeEnv)));
      Outcome(users + [user], Some(WelcomeMail(cfg, email.value)), AfterMail(delivery, Reply(true, None, cookie)))
  }

  // ------------------------------------------------------------------- login

  /** The record login finds: the lookup is by the lower-cased email. */
  function LoginTarget(users: seq<User>, email: string): Option<UserId>
  {
    FindByEmail(users, ToLowerAscii(email))
  }

  /** login never changes the store, so it is a reply only. */
  function LoginReply(cfg: Config, users: seq<User>, email: Option<string>, password: Option<string>): (r: Reply)
    ensures !(Truthy(email) && Truthy(password)) ==> r == Failure("Email and Password are required")
    ensures Truthy(email) && Truthy(password) && LoginTarget(users, email.value).None? ==>
              r == Failure("Invalid Email")
    ensures Truthy(email) && Truthy(password) && LoginTarget(users, email.value).Some? ==>
              var id := LoginTarget(users, email.value).value;
              && (!Matches(password.value, users[id].password) ==> r == Failure("Invalid Password"))
              && (Matches(password.value, users[id].password) ==>
                    r == Reply(true, None, SetToken(ClaimFor(id), SessionCookieOptions(IsProduction(cfg.nodeEnv)))))
    ensures r.success <==>
              Truthy(email) && Truthy(password) && LoginTarget(users, email.value).Some?
              && Matches(password.value, users[LoginTarget(users, email.value).value].password)
  {
    if !Truthy(email) || !Truthy(password) then Failure("Email and Password are required")
    else
      match LoginTarget(users, email.value)
      case None => Failure("Invalid Email")
      case Some(id) =>
        if !Matches(password.value, users[id].password) then Failure("Invalid Password")
        else Reply(true, None, SetToken(ClaimFor(id), SessionCookieOptions(IsProduction(cfg.nodeEnv))))
  }

  // ------------------------------------------------------ logout, isAuthenticated

  /** logout always succeeds and tells the client to drop the session cookie; nothing is revoked. */
  function LogoutReply(cfg: Config): (r: Reply)
    ensures r.success && r.message == Some("Logged Out")
    ensures r.cookie == ClearToken(SessionCookieOptions(IsProduction(cfg.nodeEnv)).(maxAge := None))
  {
    Reply(true, Some("Logged Out"), ClearToken(ClearCookieOptions(IsProduction(cfg.nodeEnv))))
  }

  /** isAuthenticated is reached only past the session gate, and then reports success. */
  function IsAuthenticatedReply(): (r: Reply)
    ensures r.success && r.message.None? && r.cookie == NoCookie
  {
    Reply(true, None, NoCookie)
  }

  // ----------------------------------------------------------- sendVerifyOtp

  /** The record after a verification code is issued: only the verify pair changes. */
  function IssueVerifyOtp(u: User, code: string, now: nat): User
  {
    u.(verifyOtp := code, verifyOtpExpireAt := now + VerifyOtpWindowMs)
  }

  /** `n` is the integer drawn by `Math.floor(100000 + Math.random() * 900000)`, `now` is `Date.now()`. */
  function SendVerifyOtpOutcome(cfg: Config, users: seq<User>, userId: Option<UserId>, n: int, now: nat,
                                delivery: Delivery): (o: Outcome)
    requires OtpLow <= n <= OtpHigh
    ensures FindById(users, userId).None? ==> o == Outcome(users, None, Failure("User not found"))
    ensures FindById(users, userId).Some? && users[userId.value].isAccountVerified ==>
              o == Outcome(users, None, Failure("Account already verified"))
    ensures FindById(users, userId).Some? && !users[userId.value].isAccountVerified ==>
              var id := userId.value;
              && o.users == users[id := IssueVerifyOtp(users[id], RenderOtp(n), now)]
              && IsOtpCode(o.users[id].verifyOtp) && ParseNat(o.users[id].verifyOtp) == n
              && o.users[id].verifyOtpExpireAt == now + 86400000
              && o.mail == Some(VerifyOtpMail(cfg, users[id].email, RenderOtp(n)))
              && o.reply == AfterMail(delivery, Reply(true, Some("Verification OTP sent to email"), NoCookie))
    ensures o.reply.success <==>
              FindById(users, userId).Some? && !users[userId.value].isAccountVerified && delivery.Delivered?
    ensures StoreGrows(users, o.users) && |o.users| == |users|
  {
    if FindById(users, userId).None? then Outcome(users, None, Failure("User not found"))
    else
      var id := userId.value;
      var user := users[id];
      if user.isAccountVerified then Outcome(users, None, Failure("Account already verified"))
      else
        var otp := RenderOtp(n);
        Outcome(users[id := IssueVerifyOtp(user, otp, now)], Some(VerifyOtpMail(cfg, user.email, otp)),
                AfterMail(delivery, Reply(true, Some("Verification OTP sent to email"), NoCookie)))
  }

  // ------------------------------------------------------------- verifyEmail

  /** The record after a successful verification: verified, verify pair cleared. */
  function MarkVerified(u: User): User
  {
    u.(isAccountVerified := true, verifyOtp := "", verifyOtpExpireAt := 0)
  }

  function VerifyEmailOutcome(users: seq<User>, userId: Option<UserId>, otp: Option<string>, now: nat): (o: Outcome)
    ensures o.mail.None?
    ensures (userId.None? || !Truthy(otp)) ==> o == Outcome(users, None, Failure("Missing Details"))
    ensures userId.Some? && Truthy(otp) && FindById(users, userId).None? ==>
              o == Outcome(users, None, Failure("User not found"))
    ensures userId.Some? && Truthy(otp) && FindById(users, userId).Some? ==>
              var u := users[userId.value];
              match CheckOtp(u.verifyOtp, u.verifyOtpExpireAt, otp.value, now)
              case Invalid => o == Outcome(users, None, Failure("Invalid OTP"))
              case Expired => o == Outcome(users, None, Failure("OTP Expired"))
              case Accepted =>
                o == Outcome(users[userId.value := MarkVerified(u)], None,
                             Reply(true, Some("Email Verified successfully"), NoCookie))
    ensures !o.reply.success ==> o.users == users
    ensures StoreGrows(users, o.users) && |o.users| == |users|
  {
    if userId.None? || !Truthy(otp) then Outcome(users, None, Failure("Missing Details"))
    else if userId.value >= |users| then Outcome(users, None, Failure("User not found"))
    else
      var id := userId.value;
      var user := users[id];
      if user.verifyOtp == "" || user.verifyOtp != otp.value then Outcome(users, None, Failure("Invalid OTP"))
      else if user.verifyOtpExpireAt < now then Outcome(users, None, Failure("OTP Expired"))
      else Outcome(users[id := MarkVerified(user)], None, Reply(true, Some("Email Verified successfully"), NoCookie))
  }

  // ------------------------------------------------------------ sendResetOtp

  /** The record after a reset code is issued: only the reset pair changes. */
  function IssueResetOtp(u: User, code: string, now: nat): User
  {
    u.(resetOtp := code, resetOtpExpireAt := now + ResetOtpWindowMs)
  }

  /** The lookup is by the email exactly as submitted. */
  function SendResetOtpOutcome(cfg: Config, users: seq<User>, email: Option<string>, n: int, now: nat,
                               delivery: Delivery): (o: Outcome)
    requires OtpLow <= n <= OtpHigh
    ensures !Truthy(email) ==> o == Outcome(users, None, Failure("Email is Required"))
    ensures Truthy(email) && FindByEmail(users, email.value).None? ==>
              o == Outcome(users, None, Failure("User not found"))
    ensures Truthy(email) && FindByEmail(users, email.value).Some? ==>
              var id := FindByEmail(users, email.value).value;
              && o.users == users[id := IssueResetOtp(users[id], RenderOtp(n), now)]
              && IsOtpCode(o.users[id].resetOtp) && ParseNat(o.users[id].resetOtp) == n
              && o.users[id].resetOtpExpireAt == now + 9000000
              && o.mail == Some(ResetOtpMail(cfg, users[id].email, RenderOtp(n)))
              && o.reply == AfterMail(delivery, Reply(true, Some("OTP sent to your email"), NoCookie))
    ensures o.reply.success <==> Truthy(email) && FindByEmail(users, email.value).Some? && delivery.Delivered?
    ensures StoreGrows(users, o.users) && |o.users| == |users|
  {
    if !Truthy(email) then Outcome(users, None, Failure("Email is Required"))
    else
      match FindByEmail(users, email.value)
      case None => Outcome(users, None, Failure("User not found"))
      case Some(id) =>
        var user := users[id];
        var otp := RenderOtp(n);
        Outcome(users[id := IssueResetOtp(user, otp, now)], Some(ResetOtpMail(cfg, user.email, otp)),
                AfterMail(delivery, Reply(true, Some("OTP sent to your email"), NoCookie)))
  }

  // ----------------------------------------------------------- resetPassword

  /** The record after a successful reset: new password hash, reset pair cleared. */
  function ApplyReset(u: User, newPassword: string): User
  {
    u.(password := Hash(newPassword), resetOtp := "", resetOtpExpireAt := 0)
  }

  function ResetPasswordOutcome(users: seq<User>, email: Option<string>, otp: Option<string>,
                                newPassword: Option<string>, now: nat): (o: Outcome)
    ensures o.mail.None?
    ensures !(Truthy(email) && Truthy(otp) && Truthy(newPassword)) ==>
              o == Outcome(users, None, Failure("Email, Otp and new Password are required"))
    ensures Truthy(email) && Truthy(otp) && Truthy(newPassword) && FindByEmail(users, email.value).None? ==>
              o == Outcome(users, None, Failure("User not found"))
    ensures Truthy(email) && Truthy(otp) && Truthy(newPassword) && FindByEmail(users, email.value).Some? ==>
              var id := FindByEmail(users, email.value).value;
              var u := users[id];
              match CheckOtp(u.resetOtp, u.resetOtpExpireAt, otp.value, now)
              case Invalid => o == Outcome(users, None, Failure("Invalid Otp"))
              case Expired => o == Outcome(users, None, Failure("OTP Expired"))
              case Accepted =>
                && o.users == users[id := ApplyReset(u, newPassword.value)]
                && Matches(newPassword.value, o.users[id].password)
                && o.reply == Reply(true, Some("Password has been reset successfully"), NoCookie)
    ensures !o.reply.success ==> o.users == users
    ensures StoreGrows(users, o.users) && |o.users| == |users|
  {
    if !Truthy(email) || !Truthy(otp) || !Truthy(newPassword) then
      Outcome(users, None, Failure("Email, Otp and new Password are required"))
    else
      match FindByEmail(users, email.value)
      case None => Outcome(users, None, Failure("User not found"))
      case Some(id) =>
        var user := users[id];
        if user.resetOtp == "" || user.resetOtp != otp.value then Outcome(users, None, Failure("Invalid Otp"))
        else if user.resetOtpExpireAt < now then Outcome(users, None, Failure("OTP Expired"))
        else Outcome(users[id := ApplyReset(user, newPassword.value)], None,
                     Reply(true, Some("Password has been reset successfully"), NoCookie))
  }

  // ------------------------------------------------------- the store invariant

  /** Replacing one record by a well-formed one with the same email keeps the invariant. */
  lemma UpdateKeepsInvariant(users: seq<User>, id: UserId, u: User)
    requires StoreInvariant(users)
    requires id < |users| && u.email == users[id].email && WellFormedUser(u)
    ensures StoreInvariant(users[id := u])
  {
    var users' := users[id := u];
    assert forall i :: 0 <= i < |users| ==> users'[i].email == users[i].email;
  }

  /** register only admits an email no stored user has, so emails stay unique. */
  lemma RegisterKeepsInvariant(cfg: Config, users: seq<User>, name: Option<string>, email: Option<string>,
                               password: Option<string>, delivery: Delivery)
    requires StoreInvariant(users)
    ensures StoreInvariant(RegisterOutcome(cfg, users, name, email, password, delivery).users)
  {
    if CanRegister(users, name, email, password) {
      var users' := users + [NewUser(name.value, email.value, Hash(password.value))];
      assert forall i :: 0 <= i < |users| ==> users'[i] == users[i];
      assert users'[|users|].email == email.value;
    }
  }

  lemma SendVerifyOtpKeepsInvariant(cfg: Config, users: seq<User>, userId: Option<UserId>, n: int, now: nat,
                                    delivery: Delivery)
    requires StoreInvariant(users)
    requires OtpLow <= n <= OtpHigh
    ensures StoreInvariant(SendVerifyOtpOutcome(cfg, users, userId, n, now, delivery).users)
  {
    if FindById(users, userId).Some? && !users[userId.value].isAccountVerified {
      UpdateKeepsInvariant(users, userId.value, IssueVerifyOtp(users[userId.value], RenderOtp(n), now));
    }
  }

  lemma VerifyEmailKeepsInvariant(users: seq<User>, userId: Option<UserId>, otp: Option<string>, now: nat)
    requires StoreInvariant(users)
    ensures StoreInvariant(VerifyEmailOutcome(users, userId, otp, now).users)
  {
    if userId.Some? && userId.value < |users| {
      UpdateKeepsInvariant(users, userId.value, MarkVerified(users[userId.value]));
    }
  }

  lemma SendResetOtpKeepsInvariant(cfg: Config, users: seq<User>, email: Option<string>, n: int, now: nat,
                                   delivery: Delivery)
    requires StoreInvariant(users)
    requires OtpLow <= n <= OtpHigh
    ensures StoreInvariant(SendResetOtpOutcome(cfg, users, email, n, now, delivery).users)
  {
    if Truthy(email) && FindByEmail(users, email.value).Some? {
      var id := FindByEmail(users, email.value).value;
      UpdateKeepsInvariant(users, id, IssueResetOtp(users[id], RenderOtp(n), now));
    }
  }

  lemma ResetPasswordKeepsInvariant(users: seq<User>, email: Option<string>, otp: Option<string>,
                                    newPassword: Option<string>, now: nat)
    requires StoreInvariant(users)
    ensures StoreInvariant(ResetPasswordOutcome(users, email, otp, newPassword, now).users)
  {
    if Truthy(email) && Truthy(newPassword) && FindByEmail(users, email.value).Some? {
      var id := FindByEmail(users, email.value).value;
      UpdateKeepsInvariant(users, id, ApplyReset(users[id], newPassword.value));
    }
  }
}
