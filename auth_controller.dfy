/**
 * The controller as the source runs it: handlers that read a user document,
 * assign its fields one by one, `save()` it, and only then hand a mail to
 * the transport. The store and the transport's outbox are fields; every
 * handler is proved to do exactly what its function in AuthHandlers says.
 */
module AuthController {
  import opened Prelude
  import opened Credentials
  import opened Otp
  import opened Session
  import opened Http
  import opened Users
  import opened AuthHandlers

  function MailsOf(mail: Option<Mail>): seq<Mail>
  {
    if mail.Some? then [mail.value] else []
  }

  class Controller {
    const config: Config
    /** The user collection; a record's id is its position. */
    var users: seq<User>
    /** Every mail handed to `transporter.sendMail`, delivered or not, in order. */
    var outbox: seq<Mail>

    ghost predicate Valid()
      reads this
    {
      StoreInvariant(users)
    }

    constructor(config: Config)
      ensures Valid()
      ensures this.config == config && users == [] && outbox == []
    {
      this.config := config;
      users := [];
      outbox := [];
    }

    method Register(name: Option<string>, email: Option<string>, password: Option<string>, delivery: Delivery)
      returns (reply: Reply)
      requires Valid()
      modifies this
      ensures Valid()
      ensures var o := RegisterOutcome(config, old(users), name, email, password, delivery);
              users == o.users && outbox == old(outbox) + MailsOf(o.mail) && reply == o.reply
    {
      RegisterKeepsInvariant(config, users, name, email, password, delivery);
      if !Truthy(name) || !Truthy(email) || !Truthy(password) {
        return Failure("Missing Details");
      }
      var existing := FindByEmail(users, email.value);
      if existing.Some? {
        return Failure("User already exist");
      }
      var hashed := Hash(password.value);
      var user := NewUser(name.value, email.value, hashed);
      var id := |users|;
      users := users + [user];
      var cookie := SetToken(ClaimFor(id), SessionCookieOptions(IsProduction(config.nodeEnv)));
      var mail := WelcomeMail(config, email.value);
      outbox := outbox + [mail];
      match delivery {
        case Delivered =>
          reply := Reply(true, None, cookie);
        case DeliveryFailed(message) =>
          reply := Reply(false, Some(message), cookie);
      }
    }

    /** login reads the store and changes nothing. */
    method Login(email: Option<string>, password: Option<string>) returns (reply: Reply)
      ensures reply == LoginReply(config, users, email, password)
    {
      if !Truthy(email) || !Truthy(password) {
        return Failure("Email and Password are required");
      }
      var found := FindByEmail(users, ToLowerAscii(email.value));
      if found.None? {
        return Failure("Invalid Email");
      }
      var isMatch := Matches(password.value, users[found.value].password);
      if !isMatch {
        return Failure("Invalid Password");
      }
      reply := Reply(true, None, SetToken(ClaimFor(found.value), SessionCookieOptions(IsProduction(config.nodeEnv))));
    }

    method SendVerifyOtp(userId: Option<UserId>, n: int, now: nat, delivery: Delivery) returns (reply: Reply)
      requires Valid()
      requires OtpLow <= n <= OtpHigh
      modifies this
      ensures Valid()
      ensures var o := SendVerifyOtpOutcome(config, old(users), userId, n, now, delivery);
              users == o.users && outbox == old(outbox) + MailsOf(o.mail) && reply == o.reply
    {
      SendVerifyOtpKeepsInvariant(config, users, userId, n, now, delivery);
      if userId.None? || userId.value >= |users| {
        return Failure("User not found");
      }
      var id := userId.value;
      var user := users[id];
      if user.isAccountVerified {
        return Failure("Account already verified");
      }
      var otp := RenderOtp(n);
      user := user.(verifyOtp := otp);
      user := user.(verifyOtpExpireAt := now + VerifyOtpWindowMs);
      users := users[id := user];
      outbox := outbox + [VerifyOtpMail(config, user.email, otp)];
      reply := AfterMail(delivery, Reply(true, Some("Verification OTP sent to email"), NoCookie));
    }

    method VerifyEmail(userId: Option<UserId>, otp: Option<string>, now: nat) returns (reply: Reply)
      requires Valid()
      modifies this
      ensures Valid()
      ensures var o := VerifyEmailOutcome(old(users), userId, otp, now);
              users == o.users && outbox == old(outbox) && reply == o.reply
    {
      VerifyEmailKeepsInvariant(users, userId, otp, now);
      if userId.None? || !Truthy(otp) {
        return Failure("Missing Details");
      }
      var id := userId.value;
      if id >= |users| {
        return Failure("User not found");
      }
      var user := users[id];
      if user.verifyOtp == "" || user.verifyOtp != otp.value {
        return Failure("Invalid OTP");
      }
      if user.verifyOtpExpireAt < now {
        return Failure("OTP Expired");
      }
      user := user.(isAccountVerified := true);
      user := user.(verifyOtp := "");
      user := user.(verifyOtpExpireAt := 0);
      users := users[id := user];
      reply := Reply(true, Some("Email Verified successfully"), NoCookie);
    }

    method SendResetOtp(email: Option<string>, n: int, now: nat, delivery: Delivery) returns (reply: Reply)
      requires Valid()
      requires OtpLow <= n <= OtpHigh
      modifies this
      ensures Valid()
      ensures var o := SendResetOtpOutcome(config, old(users), email, n, now, delivery);
              users == o.users && outbox == old(outbox) + MailsOf(o.mail) && reply == o.reply
    {
      SendResetOtpKeepsInvariant(config, users, email, n, now, delivery);
      if !Truthy(email) {
        return Failure("Email is Required");
      }
      var found := FindByEmail(users, email.value);
      if found.None? {
        return Failure("User not found");
      }
      var id := found.value;
      var user := users[id];
      var otp := RenderOtp(n);
      user := user.(resetOtp := otp);
      user := user.(resetOtpExpireAt := now + ResetOtpWindowMs);
      users := users[id := user];
      outbox := outbox + [ResetOtpMail(config, user.email, otp)];
      reply := AfterMail(delivery, Reply(true, Some("OTP sent to your email"), NoCookie));
    }

    method ResetPassword(email: Option<string>, otp: Option<string>, newPassword: Option<string>, now: nat)
      returns (reply: Reply)
      requires Valid()
      modifies this
      ensures Valid()
      ensures var o := ResetPasswordOutcome(old(users), email, otp, newPassword, now);
              users == o.users && outbox == old(outbox) && reply == o.reply
    {
      ResetPasswordKeepsInvariant(users, email, otp, newPassword, now);
      if !Truthy(email) || !Truthy(otp) || !Truthy(newPassword) {
        return Failure("Email, Otp and new Password are required");
      }
      var found := FindByEmail(users, email.value);
      if found.None? {
        return Failure("User not found");
      }
      var id := found.value;
      var user := users[id];
      if user.resetOtp == "" || user.resetOtp != otp.value {
        return Failure("Invalid Otp");
      }
      if user.resetOtpExpireAt < now {
        return Failure("OTP Expired");
      }
      var hashed := Hash(newPassword.value);
      user := user.(password := hashed);
      user := user.(resetOtp := "");
      user := user.(resetOtpExpireAt := 0);
      users := users[id := user];
      reply := Reply(true, Some("Password has been reset successfully"), NoCookie);
    }
  }
}
