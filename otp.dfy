/**
 * The one-time-password engine of the auth controller
 * (server/controller/authController.js): code generation from a random
 * integer, the two validity windows, and the ordered validity check of a
 * submitted code.
 */
module Otp {
  import opened Decimal

  /** Bounds of `Math.floor(100000 + Math.random() * 900000)`, Math.random() being in [0, 1). */
  const OtpLow: int := 100000
  const OtpHigh: int := 999999

  /** Lifetime of an account-verification code: `24 * 60 * 60 * 1000` ms, one day. */
  const VerifyOtpWindowMs: nat := 24 * 60 * 60 * 1000

  /**
   * Lifetime of a password-reset code, as the source writes it:
   * `15 * 60 * 10000` ms, which is 9,000,000 ms or 150 minutes.
   */
  const ResetOtpWindowMs: nat := 15 * 60 * 10000

  /** A code as issued by the engine: six decimal digits, the first not zero. */
  predicate IsOtpCode(s: string)
  {
    |s| == 6 && AllDigits(s) && s[0] != '0'
  }

  /** `String(n)` for the drawn integer `n`: always a six-digit code that reads back as `n`. */
  function RenderOtp(n: int): (code: string)
    requires OtpLow <= n <= OtpHigh
    ensures IsOtpCode(code)
    ensures ParseNat(code) == n
  {
    assert Pow10(5) == 100000 && Pow10(6) == 1000000;
    RenderLength(n, 5);
    ParseRender(n);
    NatToString(n)
  }

  /** Outcome of checking a submitted code against a stored code and its expiry. */
  datatype Verdict = Accepted | Invalid | Expired

  /**
   * The check order of verifyEmail and resetPassword: a code that is empty
   * or differs from the submitted one is Invalid, whatever the time; only a
   * matching code is tested for expiry, and `expireAt < now` is Expired,
   * so the code is still accepted at `now == expireAt`.
   */
  function CheckOtp(stored: string, expireAt: int, submitted: string, now: int): (v: Verdict)
    ensures v == Invalid <==> (stored == "" || stored != submitted)
    ensures v == Expired <==> (stored != "" && stored == submitted && expireAt < now)
    ensures v == Accepted <==> (stored != "" && stored == submitted && now <= expireAt)
  {
    if stored == "" || stored != submitted then Invalid
    else if expireAt < now then Expired
    else Accepted
  }
}
