/**
 * The user store behind `userModel`: the record kept for each user, the two
 * lookups the controller performs (`findOne({ email })`, `findById(id)`),
 * and the invariant every handler keeps.
 */
module Users {
  import opened Prelude
  import opened Credentials
  import opened Otp

  /**
   * A stored user. An inactive code is the empty string with expiry 0: the
   * values the controller writes when it clears a code and tests for when it
   * checks one.
   */
  datatype User = User(
    name: string,
    email: string,
    password: PasswordHash,
    isAccountVerified: bool,
    verifyOtp: string,
    verifyOtpExpireAt: int,
    resetOtp: string,
    resetOtpExpireAt: int)

  /**
   * `new userModel({ name, email, password })`: an unverified account with
   * both codes inactive.
   */
  function NewUser(name: string, email: string, password: PasswordHash): (u: User)
    ensures u.name == name && u.email == email && u.password == password
    ensures !u.isAccountVerified && WellFormedUser(u)
    ensures u.verifyOtp == "" && u.resetOtp == ""
  {
    User(name, email, password, false, "", 0, "", 0)
  }

  /**
   * `findOne({ email })`: the first record, in insertion order, whose email
   * is exactly `email` (no case folding), or none.
   */
  function FindByEmail(users: seq<User>, email: string): (r: Option<UserId>)
    ensures r.Some? ==> r.value < |users| && users[r.value].email == email
    ensures r.Some? ==> forall j :: 0 <= j < r.value ==> users[j].email != email
    ensures r.None? <==> forall j :: 0 <= j < |users| ==> users[j].email != email
  {
    if |users| == 0 then None
    else if users[0].email == email then Some(0)
    else match FindByEmail(users[1..], email)
      case None => None
      case Some(k) => Some(k + 1)
  }

  /** `findById(userId)`; a missing id finds nothing. */
  function FindById(users: seq<User>, userId: Option<UserId>): (r: Option<UserId>)
    ensures r.Some? <==> userId.Some? && userId.value < |users|
    ensures r.Some? ==> r == userId
  {
    if userId.Some? && userId.value < |users| then userId else None
  }

  function LowerChar(c: char): char
  {
    if 'A' <= c <= 'Z' then (c as int + 32) as char else c
  }

  /** `s.toLowerCase()` on the ASCII letters. */
  function ToLowerAscii(s: string): (r: string)
    ensures |r| == |s|
    ensures forall i :: 0 <= i < |s| ==> !('A' <= r[i] <= 'Z')
    ensures forall i :: 0 <= i < |s| ==> (r[i] == s[i] || ('A' <= s[i] <= 'Z' && r[i] as int == s[i] as int + 32))
  {
    seq(|s|, i requires 0 <= i < |s| => LowerChar(s[i]))
  }

  /** No two stored users share an email. */
  predicate UniqueEmails(users: seq<User>)
  {
    forall i, j :: 0 <= i < j < |users| ==> users[i].email != users[j].email
  }

  /**
   * The shape every stored record keeps: each code is either inactive
   * (empty with expiry 0) or a six-digit code with a positive expiry, and a
   * verified account has no pending verification code.
   */
  predicate WellFormedUser(u: User)
  {
    && (u.verifyOtp == "" <==> u.verifyOtpExpireAt == 0)
    && (u.verifyOtp != "" ==> IsOtpCode(u.verifyOtp) && u.verifyOtpExpireAt > 0)
    && (u.resetOtp == "" <==> u.resetOtpExpireAt == 0)
    && (u.resetOtp != "" ==> IsOtpCode(u.resetOtp) && u.resetOtpExpireAt > 0)
    && (u.isAccountVerified ==> u.verifyOtp == "")
  }

  predicate StoreInvariant(users: seq<User>)
  {
    UniqueEmails(users) && forall i :: 0 <= i < |users| ==> WellFormedUser(users[i])
  }

  /** With unique emails, the record found is the only one with that email. */
  lemma FindByEmailUnique(users: seq<User>, email: string, id: UserId)
    requires UniqueEmails(users)
    requires id < |users| && users[id].email == email
    ensures FindByEmail(users, email) == Some(id)
  {
  }

  /** A record appended under a new email is what a lookup of that email finds. */
  lemma {:induction false} FindAppended(users: seq<User>, u: User)
    requires FindByEmail(users, u.email).None?
    ensures FindByEmail(users + [u], u.email) == Some(|users|)
  {
    var r := FindByEmail(users + [u], u.email);
    assert (users + [u])[|users|] == u;
    assert forall j :: 0 <= j < |users| ==> (users + [u])[j] == users[j];
  }

  /** Replacing a record by one with the same email keeps every email lookup. */
  lemma FindAfterUpdate(users: seq<User>, id: UserId, u: User, email: string)
    requires id < |users| && u.email == users[id].email
    ensures FindByEmail(users[id := u], email) == FindByEmail(users, email)
  {
    var users' := users[id := u];
    assert forall j :: 0 <= j < |users| ==> users'[j].email == users[j].email;
    var a, b := FindByEmail(users', email), FindByEmail(users, email);
    if a.Some? && b.Some? {
      assert a.value == b.value;
    }
  }
}
