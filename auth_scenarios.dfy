/**
 * Properties of sequences of requests: what one handler leaves in the store
 * decides how the next one answers.
 */
module AuthScenarios {
  import opened Prelude
  import opened Credentials
  import opened Otp
  import opened Templates
  import opened Session
  import opened Http
  import opened Users
  import opened AuthHandlers
  import opened UserAuth

  /**
   * A user registered under an already lower-case email can log in at once
   * with the same password, whether or not the welcome mail went out, and
   * receives a session for the id register created.
   */
  lemma RegisterThenLogin(cfg: Config, users: seq<User>, name: Option<string>, email: Option<string>,
                          password: Option<string>, delivery: Delivery)
    requires CanRegister(users, name, email, password)
    requires ToLowerAscii(email.value) == email.value
    ensures var o := RegisterOutcome(cfg, users, name, email, password, delivery);
            LoginReply(cfg, o.users, email, password) == Reply(true, None, o.reply.cookie)
            && o.reply.cookie.SetToken? && o.reply.cookie.claim.id == |users|
  {
    FindAppended(users, NewUser(name.value, email.value, Hash(password.value)));
  }

  /** A second registration under the same email, with any name and password, is refused. */
  lemma RegisterTwiceConflicts(cfg: Config, users: seq<User>, name: Option<string>, email: Option<string>,
                               password: Option<string>, delivery: Delivery,
                               name2: Option<string>, password2: Option<string>, delivery2: Delivery)
    requires CanRegister(users, name, email, password)
    requires Truthy(name2) && Truthy(password2)
    ensures var o := RegisterOutcome(cfg, users, name, email, password, delivery);
            RegisterOutcome(cfg, o.users, name2, email, password2, delivery2)
              == Outcome(o.users, None, Failure("User already exist"))
  {
    FindAppended(users, NewUser(name.value, email.value, Hash(password.value)));
  }

  /**
   * Issuing a verification code and submitting it within the day verifies
   * the account and changes nothing else of the record (even when the
   * mail carrying it failed); the same code is then refused as invalid,
   * and no further code can be requested.
   */
  lemma VerifyCodeIsSingleUse(cfg: Config, users: seq<User>, id: UserId, n: int, now: nat, delivery: Delivery,
                              later: nat, again: nat, n2: int)
    requires id < |users| && !users[id].isAccountVerified
    requires OtpLow <= n <= OtpHigh && OtpLow <= n2 <= OtpHigh
    requires later <= now + VerifyOtpWindowMs
    ensures var o1 := SendVerifyOtpOutcome(cfg, users, Some(id), n, now, delivery);
            var o2 := VerifyEmailOutcome(o1.users, Some(id), Some(RenderOtp(n)), later);
            && o2.reply == Reply(true, Some("Email Verified successfully"), NoCookie)
            && o2.users == users[id := MarkVerified(users[id])]
            && VerifyEmailOutcome(o2.users, Some(id), Some(RenderOtp(n)), again)
                 == Outcome(o2.users, None, Failure("Invalid OTP"))
            && SendVerifyOtpOutcome(cfg, o2.users, Some(id), n2, again, delivery)
                 == Outcome(o2.users, None, Failure("Account already verified"))
  {
    var o1 := SendVerifyOtpOutcome(cfg, users, Some(id), n, now, delivery);
    assert o1.users[id].verifyOtp == RenderOtp(n);
    var o2 := VerifyEmailOutcome(o1.users, Some(id), Some(RenderOtp(n)), later);
    assert o2.users == users[id := MarkVerified(users[id])] by {
      assert o1.users[id := MarkVerified(o1.users[id])] == users[id := MarkVerified(users[id])];
    }
  }

  /**
   * After the day is over the right code is refused as expired, while any
   * other code is still refused as invalid: the code is compared first.
   */
  lemma VerifyCodeExpires(cfg: Config, users: seq<User>, id: UserId, n: int, now: nat, delivery: Delivery,
                          later: nat, wrong: string)
    requires id < |users| && !users[id].isAccountVerified
    requires OtpLow <= n <= OtpHigh
    requires later > now + VerifyOtpWindowMs
    requires wrong != "" && wrong != RenderOtp(n)
    ensures var o1 := SendVerifyOtpOutcome(cfg, users, Some(id), n, now, delivery);
            && VerifyEmailOutcome(o1.users, Some(id), Some(RenderOtp(n)), later)
                 == Outcome(o1.users, None, Failure("OTP Expired"))
            && VerifyEmailOutcome(o1.users, Some(id), Some(wrong), later)
                 == Outcome(o1.users, None, Failure("Invalid OTP"))
  {
    var o1 := SendVerifyOtpOutcome(cfg, users, Some(id), n, now, delivery);
    assert o1.users[id].verifyOtp == RenderOtp(n);
  }

  /** The store after a reset code is issued and then used within its window. */
  lemma ResetRoundTrip(cfg: Config, users: seq<User>, email: string, n: int, now: nat, delivery: Delivery,
                       later: nat, newPassword: string)
    requires email != "" && FindByEmail(users, email).Some?
    requires OtpLow <= n <= OtpHigh
    requires later <= now + ResetOtpWindowMs && newPassword != ""
    ensures var id := FindByEmail(users, email).value;
            var o1 := SendResetOtpOutcome(cfg, users, Some(email), n, now, delivery);
            var o2 := ResetPasswordOutcome(o1.users, Some(email), Some(RenderOtp(n)), Some(newPassword), later);
            && o2.reply == Reply(true, Some("Password has been reset successfully"), NoCookie)
            && o2.users == users[id := ApplyReset(IssueResetOtp(users[id], RenderOtp(n), now), newPassword)]
  {
    var id := FindByEmail(users, email).value;
    var o1 := SendResetOtpOutcome(cfg, users, Some(email), n, now, delivery);
    FindAfterUpdate(users, id, IssueResetOtp(users[id], RenderOtp(n), now), email);
    assert o1.users[id].resetOtp == RenderOtp(n);
    assert o1.users[id := ApplyReset(o1.users[id], newPassword)]
        == users[id := ApplyReset(IssueResetOtp(users[id], RenderOtp(n), now), newPassword)];
  }

  /**
   * A reset code used within its window replaces the password: afterwards
   * the new password logs in, and the old one logs in exactly when bcrypt
   * cannot tell it from the new one (`Credentials.DistinctPasswordsDiffer`
   * says when it can); the account's verification state is untouched; the
   * same code cannot be used again.
   */
  lemma ResetReplacesPassword(cfg: Config, users: seq<User>, email: string, n: int, now: nat, delivery: Delivery,
                              later: nat, again: nat, oldPassword: string, newPassword: string, another: string)
    requires email != "" && FindByEmail(users, email).Some? && ToLowerAscii(email) == email
    requires OtpLow <= n <= OtpHigh
    requires later <= now + ResetOtpWindowMs
    requires newPassword != "" && oldPassword != "" && another != ""
    ensures var id := FindByEmail(users, email).value;
            var o1 := SendResetOtpOutcome(cfg, users, Some(email), n, now, delivery);
            var o2 := ResetPasswordOutcome(o1.users, Some(email), Some(RenderOtp(n)), Some(newPassword), later);
            && o2.reply == Reply(true, Some("Password has been reset successfully"), NoCookie)
            && o2.users[id].isAccountVerified == users[id].isAccountVerified
            && o2.users[id].verifyOtp == users[id].verifyOtp
            && o2.users[id].verifyOtpExpireAt == users[id].verifyOtpExpireAt
            && LoginReply(cfg, o2.users, Some(email), Some(newPassword)).success
            && (LoginReply(cfg, o2.users, Some(email), Some(oldPassword)).success <==>
                Matches(oldPassword, Hash(newPassword)))
            && (!Matches(oldPassword, Hash(newPassword)) ==>
                LoginReply(cfg, o2.users, Some(email), Some(oldPassword)) == Failure("Invalid Password"))
            && ResetPasswordOutcome(o2.users, Some(email), Some(RenderOtp(n)), Some(another), again)
                 == Outcome(o2.users, None, Failure("Invalid Otp"))
  {
    var id := FindByEmail(users, email).value;
    ResetRoundTrip(cfg, users, email, n, now, delivery, later, newPassword);
    var after := ApplyReset(IssueResetOtp(users[id], RenderOtp(n), now), newPassword);
    FindAfterUpdate(users, id, after, email);
    var final := users[id := after];
    assert LoginTarget(final, email) == Some(id);
    assert final[id].password == Hash(newPassword) && final[id].resetOtp == "";
  }

  /**
   * The reset window as written is 150 minutes: a code is accepted exactly
   * 150 minutes after it was issued and expired one millisecond later.
   */
  lemma ResetWindowIs150Minutes(cfg: Config, users: seq<User>, email: string, n: int, now: nat,
                                delivery: Delivery, newPassword: string)
    requires email != "" && FindByEmail(users, email).Some?
    requires OtpLow <= n <= OtpHigh && newPassword != ""
    ensures var o1 := SendResetOtpOutcome(cfg, users, Some(email), n, now, delivery);
            && ResetPasswordOutcome(o1.users, Some(email), Some(RenderOtp(n)), Some(newPassword),
                                    now + 150 * 60 * 1000).reply.success
            && ResetPasswordOutcome(o1.users, Some(email), Some(RenderOtp(n)), Some(newPassword),
                                    now + 150 * 60 * 1000 + 1)
                 == Outcome(o1.users, None, Failure("OTP Expired"))
  {
    var id := FindByEmail(users, email).value;
    FindAfterUpdate(users, id, IssueResetOtp(users[id], RenderOtp(n), now), email);
  }

  /** The verification mail carries the very code that was stored for the user. */
  lemma VerifyMailCarriesStoredCode(cfg: Config, users: seq<User>, id: UserId, n: int, now: nat, delivery: Delivery)
    requires id < |users| && !users[id].isAccountVerified
    requires OtpLow <= n <= OtpHigh
    requires Contains(cfg.verifyTemplate, "{{otp}}")
    ensures var o := SendVerifyOtpOutcome(cfg, users, Some(id), n, now, delivery);
            o.mail.Some? && o.mail.value.to == users[id].email && o.mail.value.body.Html?
            && Contains(o.mail.value.body.html, o.users[id].verifyOtp)
  {
  }

  /** The reset mail carries the very code that was stored for the user. */
  lemma ResetMailCarriesStoredCode(cfg: Config, users: seq<User>, email: string, n: int, now: nat, delivery: Delivery)
    requires email != "" && FindByEmail(users, email).Some?
    requires OtpLow <= n <= OtpHigh
    requires Contains(cfg.resetTemplate, "{{otp}}")
    ensures var id := FindByEmail(users, email).value;
            var o := SendResetOtpOutcome(cfg, users, Some(email), n, now, delivery);
            o.mail.Some? && o.mail.value.to == email && o.mail.value.body.Html?
            && Contains(o.mail.value.body.html, o.users[id].resetOtp)
  {
  }

  /**
   * Sign-up end to end: register, log in, present the issued session token
   * to the gate, request a verification code as that user and submit it in
   * time: the account is then verified. Signing is not modelled, so the
   * sign/verify round trip is a premise: `token` is taken to be the token
   * signed over the claim login sets, which `verify` decodes to that
   * claim's id.
   */
  lemma SignUpFlow(cfg: Config, users: seq<User>, name: Option<string>, email: Option<string>,
                   password: Option<string>, token: string, verify: string -> Verified,
                   n: int, now: nat, later: nat, welcome: Delivery, codeMail: Delivery)
    requires CanRegister(users, name, email, password)
    requires ToLowerAscii(email.value) == email.value
    requires OtpLow <= n <= OtpHigh && later <= now + VerifyOtpWindowMs
    requires token != "" && verify(token) == Decoded(Some(ClaimFor(|users|).id))
    ensures var o1 := RegisterOutcome(cfg, users, name, email, password, welcome);
            var login := LoginReply(cfg, o1.users, email, password);
            && login.success && login.cookie.SetToken? && login.cookie.claim.id == |users|
            && Authorize(map[TokenCookie := token], verify) == Allow(login.cookie.claim.id)
            && var o2 := SendVerifyOtpOutcome(cfg, o1.users, Some(login.cookie.claim.id), n, now, codeMail);
               var o3 := VerifyEmailOutcome(o2.users, Some(login.cookie.claim.id), Some(RenderOtp(n)), later);
               o3.reply.success && o3.users[|users|].isAccountVerified
  {
    RegisterThenLogin(cfg, users, name, email, password, welcome);
    var o1 := RegisterOutcome(cfg, users, name, email, password, welcome);
    VerifyCodeIsSingleUse(cfg, o1.users, |users|, n, now, codeMail, later, later, n);
  }

  /**
   * In a store that keeps the invariant a verified account holds no
   * verification code, so every code submitted for it is refused as invalid.
   */
  lemma VerifiedAccountRejectsEveryCode(users: seq<User>, id: UserId, otp: string, now: nat)
    requires StoreInvariant(users)
    requires id < |users| && users[id].isAccountVerified && otp != ""
    ensures VerifyEmailOutcome(users, Some(id), Some(otp), now) == Outcome(users, None, Failure("Invalid OTP"))
  {
    assert WellFormedUser(users[id]);
  }

  /**
   * In a store that keeps the invariant, a reset requested for a record's
   * email issues the code to that record and to no other.
   */
  lemma ResetCodeGoesToTheHolder(cfg: Config, users: seq<User>, id: UserId, n: int, now: nat, delivery: Delivery)
    requires StoreInvariant(users)
    requires id < |users| && users[id].email != ""
    requires OtpLow <= n <= OtpHigh
    ensures var o := SendResetOtpOutcome(cfg, users, Some(users[id].email), n, now, delivery);
            && o.users == users[id := IssueResetOtp(users[id], RenderOtp(n), now)]
            && o.mail == Some(ResetOtpMail(cfg, users[id].email, RenderOtp(n)))
  {
    FindByEmailUnique(users, users[id].email, id);
  }

  /**
   * In a store that keeps the invariant, login with a lower-case email
   * checks the password against the one record holding that email.
   */
  lemma LoginChecksTheHolder(cfg: Config, users: seq<User>, id: UserId, email: string, password: string)
    requires StoreInvariant(users)
    requires id < |users| && users[id].email == ToLowerAscii(email)
    requires email != "" && password != ""
    ensures LoginReply(cfg, users, Some(email), Some(password)).success <==> Matches(password, users[id].password)
    ensures Matches(password, users[id].password) ==>
              LoginReply(cfg, users, Some(email), Some(password)).cookie.claim == ClaimFor(id)
  {
    FindByEmailUnique(users, ToLowerAscii(email), id);
  }

  /**
   * After a reset, an old password that differs from the new one within
   * bcrypt's 72 key bytes (and holds no zero character) is refused.
   */
  lemma ResetLocksOutOldPassword(cfg: Config, users: seq<User>, email: string, n: int, now: nat, delivery: Delivery,
                                 later: nat, oldPassword: string, newPassword: string)
    requires email != "" && FindByEmail(users, email).Some? && ToLowerAscii(email) == email
    requires OtpLow <= n <= OtpHigh
    requires later <= now + ResetOtpWindowMs
    requires newPassword != "" && oldPassword != "" && oldPassword != newPassword
    requires '\0' !in oldPassword && '\0' !in newPassword
    requires |Utf8(oldPassword)| <= KeyBytes && |Utf8(newPassword)| <= KeyBytes
    ensures var o1 := SendResetOtpOutcome(cfg, users, Some(email), n, now, delivery);
            var o2 := ResetPasswordOutcome(o1.users, Some(email), Some(RenderOtp(n)), Some(newPassword), later);
            LoginReply(cfg, o2.users, Some(email), Some(oldPassword)) == Failure("Invalid Password")
  {
    ResetReplacesPassword(cfg, users, email, n, now, delivery, later, later, oldPassword, newPassword, newPassword);
    DistinctPasswordsDiffer(oldPassword, newPassword);
  }
}
