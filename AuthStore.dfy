/**
 * The authentication store (src/store/authStore.ts): the signed-in user and
 * the actions login, register, logout, changePassword, requestPasswordReset
 * and resetPassword over the user table.
 *
 * Each action is first given as a pure transition on the user table, which
 * returns the new table and either success or the error the source throws;
 * the `Auth` class then performs it step by step on a `Users` table, as the
 * source does.  The clock (`Date.now()`), the random reset token and the
 * outcome of sending the reset email are parameters.
 */
module AuthStore {
  import opened Wrappers
  import opened UsersStore

  /** A user without `password`, `resetToken` and `resetTokenExpiry`: what the session holds. */
  datatype PublicUser = PublicUser(id: string, email: string, name: string)

  function Public(u: User): PublicUser {
    PublicUser(u.id, u.email, u.name)
  }

  /** The errors the actions throw. */
  datatype AuthError =
    | InvalidCredentials
    | EmailAlreadyRegistered
    | RegistrationFailed
    | NotAuthenticated
    | CurrentPasswordIncorrect
    | NoAccount
    | ResetEmailFailed
    | NoResetToken
    | InvalidResetToken
    | ResetTokenExpired

  /** The text each error carries. */
  function Message(e: AuthError): string {
    match e
    case InvalidCredentials => "Invalid email or password"
    case EmailAlreadyRegistered => "Email already registered"
    case RegistrationFailed => "Registration failed"
    case NotAuthenticated => "Not authenticated"
    case CurrentPasswordIncorrect => "Current password is incorrect"
    case NoAccount => "No account found with this email"
    case ResetEmailFailed => "Failed to send reset email. Please try again later."
    case NoResetToken => "No reset token found"
    case InvalidResetToken => "Invalid reset token"
    case ResetTokenExpired => "Reset token has expired"
  }

  /** How long a reset token stays valid: one hour. */
  const ResetTokenLifetimeMs: int := 3600000

  /** The user table after an action, and what the action returned or threw. */
  datatype Outcome<T> = Outcome(users: seq<User>, result: Result<T, AuthError>)

  // ---------------------------------------------------------------------------
  // The actions as transitions on the user table

  /** `login(email, password)` */
  function TryLogin(users: seq<User>, email: string, password: string): (o: Outcome<PublicUser>)
    ensures o.users == users
  {
    var found := Find(users, email);
    if found.None? || found.value.password != password then Outcome(users, Failure(InvalidCredentials))
    else Outcome(users, Success(Public(found.value)))
  }

  /** `register(email, password, name)`: the user is added without reset fields. */
  function TryRegister(users: seq<User>, email: string, password: string, name: string, freshId: string)
    : (o: Outcome<PublicUser>)
  {
    if Find(users, email).Some? then Outcome(users, Failure(EmailAlreadyRegistered))
    else
      var added := users + [WithId(NewUser(email, name, password, None, None), freshId)];
      var found := Find(added, email);
      if found.None? then Outcome(added, Failure(RegistrationFailed))
      else Outcome(added, Success(Public(found.value)))
  }

  function PasswordPatch(newPassword: string): UserPatch {
    NoChange.(password := Some(newPassword))
  }

  /** `changePassword(currentPassword, newPassword)` for the session's user `current`. */
  function TryChangePassword(users: seq<User>, current: Option<PublicUser>, currentPassword: string, newPassword: string)
    : (o: Outcome<()>)
  {
    if current.None? then Outcome(users, Failure(NotAuthenticated))
    else
      var fullUser := Find(users, current.value.email);
      if fullUser.None? || fullUser.value.password != currentPassword then Outcome(users, Failure(CurrentPasswordIncorrect))
      else Outcome(UpdateWhere(users, current.value.email, PasswordPatch(newPassword)), Success(()))
  }

  function ResetRequestPatch(token: string, expiry: int): UserPatch {
    NoChange.(resetToken := Some(Some(token)), resetTokenExpiry := Some(Some(expiry)))
  }

  /**
   * `requestPasswordReset(email)` with the generated `token`, the clock
   * reading `now` and whether the reset email went out (`emailSent`).
   */
  function TryRequestReset(users: seq<User>, email: string, token: string, now: int, emailSent: bool): (o: Outcome<()>)
  {
    if Find(users, email).None? then Outcome(users, Failure(NoAccount))
    else if !emailSent then Outcome(users, Failure(ResetEmailFailed))
    else Outcome(UpdateWhere(users, email, ResetRequestPatch(token, now + ResetTokenLifetimeMs)), Success(()))
  }

  function ResetPatch(newPassword: string): UserPatch {
    NoChange.(password := Some(newPassword), resetToken := Some(None), resetTokenExpiry := Some(None))
  }

  /** `!user.resetToken || !user.resetTokenExpiry`: an empty token or a zero expiry counts as none. */
  predicate HasResetToken(u: User) {
    u.resetToken.Some? && u.resetToken.value != "" && u.resetTokenExpiry.Some? && u.resetTokenExpiry.value != 0
  }

  /** `resetPassword(email, token, newPassword)` at clock reading `now`. */
  function TryResetPassword(users: seq<User>, email: string, token: string, newPassword: string, now: int)
    : (o: Outcome<()>)
  {
    var found := Find(users, email);
    if found.None? then Outcome(users, Failure(NoAccount))
    else if !HasResetToken(found.value) then Outcome(users, Failure(NoResetToken))
    else if found.value.resetToken.value != token then Outcome(users, Failure(InvalidResetToken))
    else if now > found.value.resetTokenExpiry.value then Outcome(users, Failure(ResetTokenExpired))
    else Outcome(UpdateWhere(users, email, ResetPatch(newPassword)), Success(()))
  }

  // ---------------------------------------------------------------------------
  // What the actions promise

  /** With distinct emails, login succeeds exactly for a stored email and its password. */
  lemma LoginSucceedsIff(users: seq<User>, email: string, password: string)
    requires DistinctEmails(users)
    ensures TryLogin(users, email, password).result.Success?
            <==> exists u :: u in users && u.email == email && u.password == password
    ensures TryLogin(users, email, password).result.Failure? ==> TryLogin(users, email, password).result.error == InvalidCredentials
  {
    var found := Find(users, email);
    if u :| u in users && u.email == email && u.password == password {
      var i :| 0 <= i < |users| && users[i] == found.value && found.value.email == email;
      var k :| 0 <= k < |users| && users[k] == u;
      assert i == k;
    }
  }

  /** Register fails only on a taken email, and leaves the table unchanged when it does. */
  lemma RegisterOutcome(users: seq<User>, email: string, password: string, name: string, freshId: string)
    ensures var o := TryRegister(users, email, password, name, freshId);
      && (o.result.Failure? <==> Find(users, email).Some?)
      && (o.result.Failure? ==> o.result.error == EmailAlreadyRegistered && o.users == users)
      && (o.result.Success? ==>
            && o.users == users + [User(freshId, email, name, password, None, None)]
            && o.result.value == PublicUser(freshId, email, name))
  {
    if Find(users, email).None? {
      forall u | u in users ensures u.email != email { }
      var added := users + [User(freshId, email, name, password, None, None)];
      var found := Find(added, email);
      var i :| 0 <= i < |added| && added[i] == found.value && found.value.email == email;
      assert forall j :: 0 <= j < |users| ==> added[j] == users[j] && users[j] in users;
      assert i == |users|;
    }
  }

  /** The "Registration failed" branch cannot be reached. */
  lemma RegistrationNeverFails(users: seq<User>, email: string, password: string, name: string, freshId: string)
    ensures TryRegister(users, email, password, name, freshId).result != Failure(RegistrationFailed)
  {
    RegisterOutcome(users, email, password, name, freshId);
  }

  /** A fresh registration keeps emails distinct and its credentials log in to the new account. */
  lemma RegisterThenLogin(users: seq<User>, email: string, password: string, name: string, freshId: string)
    requires DistinctEmails(users) && Find(users, email).None?
    ensures var o := TryRegister(users, email, password, name, freshId);
      && DistinctEmails(o.users)
      && TryLogin(o.users, email, password).result == Success(PublicUser(freshId, email, name))
      && TryRegister(o.users, email, password, name, freshId).result == Failure(EmailAlreadyRegistered)
  {
    RegisterOutcome(users, email, password, name, freshId);
    AppendNewEmail(users, User(freshId, email, name, password, None, None));
  }

  /**
   * A successful password change: the new password logs in, a different
   * old one no longer does, and only the user's own record changes.
   */
  lemma ChangePasswordEffect(users: seq<User>, current: Option<PublicUser>, currentPassword: string, newPassword: string)
    ensures var o := TryChangePassword(users, current, currentPassword, newPassword);
      && (o.result.Success? <==>
            current.Some? && Find(users, current.value.email).Some?
            && Find(users, current.value.email).value.password == currentPassword)
      && (o.result.Failure? ==> o.users == users)
      && (o.result.Success? ==>
            && TryLogin(o.users, current.value.email, newPassword).result.Success?
            && (currentPassword != newPassword ==>
                  TryLogin(o.users, current.value.email, currentPassword).result == Failure(InvalidCredentials))
            && (forall i :: 0 <= i < |users| && users[i].email != current.value.email ==> o.users[i] == users[i])
            && (DistinctEmails(users) ==> DistinctEmails(o.users)))
  {
    if current.Some? && Find(users, current.value.email).Some?
       && Find(users, current.value.email).value.password == currentPassword {
      NewPasswordLogsIn(users, current.value.email, currentPassword, newPassword);
      UpdateKeepsEmails(users, current.value.email, PasswordPatch(newPassword));
    }
  }

  /** After a stored account's password is replaced, the new password logs in and a different old one does not. */
  lemma NewPasswordLogsIn(users: seq<User>, email: string, oldPassword: string, newPassword: string)
    requires Find(users, email).Some?
    ensures var changed := UpdateWhere(users, email, PasswordPatch(newPassword));
      && TryLogin(changed, email, newPassword).result.Success?
      && (oldPassword != newPassword ==> TryLogin(changed, email, oldPassword).result == Failure(InvalidCredentials))
  {
    var changed := UpdateWhere(users, email, PasswordPatch(newPassword));
    FindAfterUpdateFound(users, email, PasswordPatch(newPassword));
    assert Find(changed, email).value.password == newPassword;
  }

  /** A reset request fails without changes on an unknown email or an unsent email. */
  lemma RequestResetOutcome(users: seq<User>, email: string, token: string, now: int, emailSent: bool)
    ensures var o := TryRequestReset(users, email, token, now, emailSent);
      && (o.result.Success? <==> Find(users, email).Some? && emailSent)
      && (o.result.Failure? ==> o.users == users)
      && (Find(users, email).None? ==> o.result == Failure(NoAccount))
      && (Find(users, email).Some? && !emailSent ==> o.result == Failure(ResetEmailFailed))
      && (DistinctEmails(users) ==> DistinctEmails(o.users))
  {
    UpdateKeepsEmails(users, email, ResetRequestPatch(token, now + ResetTokenLifetimeMs));
  }

  /** After a successful request, the account found by the email holds the token and its expiry. */
  lemma AfterRequest(users: seq<User>, email: string, token: string, now: int)
    requires Find(users, email).Some?
    ensures var found := Find(TryRequestReset(users, email, token, now, true).users, email);
      && found.Some?
      && found.value.resetToken == Some(token) && found.value.resetTokenExpiry == Some(now + ResetTokenLifetimeMs)
  {
    FindAfterUpdateFound(users, email, ResetRequestPatch(token, now + ResetTokenLifetimeMs));
  }

  /**
   * The whole reset flow: after a successful request with a non-empty token,
   * resetting with that token up to one hour later succeeds, the new password
   * logs in, and the token is spent, so replaying it finds no token.
   */
  lemma ResetFlow(users: seq<User>, email: string, token: string, now: int, later: int, newPassword: string)
    requires Find(users, email).Some? && token != ""
    requires now + ResetTokenLifetimeMs != 0 && later <= now + ResetTokenLifetimeMs
    ensures var requested := TryRequestReset(users, email, token, now, true).users;
      var reset := TryResetPassword(requested, email, token, newPassword, later);
      && reset.result.Success?
      && TryLogin(reset.users, email, newPassword).result.Success?
      && TryResetPassword(reset.users, email, token, newPassword, later).result == Failure(NoResetToken)
  {
    var requested := TryRequestReset(users, email, token, now, true).users;
    AfterRequest(users, email, token, now);
    var u := Find(requested, email).value;
    assert HasResetToken(u);
    var reset := TryResetPassword(requested, email, token, newPassword, later);
    assert reset.users == UpdateWhere(requested, email, ResetPatch(newPassword));
    FindAfterUpdateFound(requested, email, ResetPatch(newPassword));
    var v := Find(reset.users, email).value;
    assert v == Merge(u, ResetPatch(newPassword));
    assert v.password == newPassword && v.resetToken.None?;
  }

  /** After the hour has passed, the right token is refused as expired and nothing changes. */
  lemma ResetAfterExpiry(users: seq<User>, email: string, token: string, now: int, later: int, newPassword: string)
    requires Find(users, email).Some? && token != "" && now + ResetTokenLifetimeMs != 0
    requires later > now + ResetTokenLifetimeMs
    ensures var requested := TryRequestReset(users, email, token, now, true).users;
      TryResetPassword(requested, email, token, newPassword, later) == Outcome(requested, Failure(ResetTokenExpired))
  {
    AfterRequest(users, email, token, now);
  }

  /** A different token is refused and nothing changes. */
  lemma ResetWithWrongToken(users: seq<User>, email: string, token: string, other: string, now: int, later: int,
                            newPassword: string)
    requires Find(users, email).Some? && token != "" && now + ResetTokenLifetimeMs != 0 && other != token
    ensures var requested := TryRequestReset(users, email, token, now, true).users;
      TryResetPassword(requested, email, other, newPassword, later) == Outcome(requested, Failure(InvalidResetToken))
  {
    AfterRequest(users, email, token, now);
  }

  /** Every failed reset leaves the table unchanged; a successful one keeps emails distinct. */
  lemma ResetPasswordOutcome(users: seq<User>, email: string, token: string, newPassword: string, now: int)
    ensures var o := TryResetPassword(users, email, token, newPassword, now);
      && (o.result.Failure? ==> o.users == users)
      && (o.result.Success? <==>
            Find(users, email).Some? && HasResetToken(Find(users, email).value)
            && Find(users, email).value.resetToken.value == token
            && now <= Find(users, email).value.resetTokenExpiry.value)
      && (DistinctEmails(users) ==> DistinctEmails(o.users))
  {
    UpdateKeepsEmails(users, email, ResetPatch(newPassword));
  }

  // ---------------------------------------------------------------------------
  // The store

  class Auth {
    var user: Option<PublicUser>
    var isAuthenticated: bool
    const users: Users

    /** The session flag agrees with the session user, and no two accounts share an email. */
    ghost predicate Valid()
      reads this, users
    {
      && (isAuthenticated <==> user.Some?)
      && DistinctEmails(users.users)
    }

    constructor (users: Users)
      requires DistinctEmails(users.users)
      ensures Valid() && this.users == users && user.None?
    {
      this.users := users;
      user := None;
      isAuthenticated := false;
    }

    method Login(email: string, password: string) returns (result: Result<(), AuthError>)
      requires Valid()
      modifies this
      ensures Valid()
      ensures var o := TryLogin(users.users, email, password);
        && (o.result.Success? ==> result.Success? && user == Some(o.result.value))
        && (o.result.Failure? ==> result == Failure(o.result.error) && user == old(user))
    {
      var found := users.FindUser(email);
      if found.None? || found.value.password != password {
        return Failure(InvalidCredentials);
      }
      user := Some(Public(found.value));
      isAuthenticated := true;
      return Success(());
    }

    method Register(email: string, password: string, name: string, freshId: string) returns (result: Result<(), AuthError>)
      requires Valid()
      modifies this, users
      ensures Valid()
      ensures var o := TryRegister(old(users.users), email, password, name, freshId);
        && users.users == o.users
        && (o.result.Success? ==> result.Success? && user == Some(o.result.value))
        && (o.result.Failure? ==> result == Failure(o.result.error) && user == old(user))
    {
      var existingUser := users.FindUser(email);
      if existingUser.Some? {
        return Failure(EmailAlreadyRegistered);
      }
      ghost var before := users.users;
      users.AddUser(NewUser(email, name, password, None, None), freshId);
      AppendNewEmail(before, WithId(NewUser(email, name, password, None, None), freshId));
      var found := users.FindUser(email);
      if found.None? {
        return Failure(RegistrationFailed);
      }
      user := Some(Public(found.value));
      isAuthenticated := true;
      return Success(());
    }

    method Logout()
      requires Valid()
      modifies this
      ensures Valid()
      ensures user.None? && !isAuthenticated
    {
      user := None;
      isAuthenticated := false;
    }

    method ChangePassword(currentPassword: string, newPassword: string) returns (result: Result<(), AuthError>)
      requires Valid()
      modifies users
      ensures Valid()
      ensures var o := TryChangePassword(old(users.users), user, currentPassword, newPassword);
        users.users == o.users && result == o.result
    {
      if user.None? {
        return Failure(NotAuthenticated);
      }
      var fullUser := users.FindUser(user.value.email);
      if fullUser.None? || fullUser.value.password != currentPassword {
        return Failure(CurrentPasswordIncorrect);
      }
      UpdateKeepsEmails(users.users, user.value.email, PasswordPatch(newPassword));
      users.UpdateUser(user.value.email, PasswordPatch(newPassword));
      return Success(());
    }

    method RequestPasswordReset(email: string, token: string, now: int, emailSent: bool)
      returns (result: Result<(), AuthError>)
      requires Valid()
      modifies users
      ensures Valid()
      ensures var o := TryRequestReset(old(users.users), email, token, now, emailSent);
        users.users == o.users && result == o.result
    {
      var found := users.FindUser(email);
      if found.None? {
        return Failure(NoAccount);
      }
      var expiry := now + ResetTokenLifetimeMs;
      if !emailSent {
        return Failure(ResetEmailFailed);
      }
      UpdateKeepsEmails(users.users, email, ResetRequestPatch(token, expiry));
      users.UpdateUser(email, ResetRequestPatch(token, expiry));
      return Success(());
    }

    method ResetPassword(email: string, token: string, newPassword: string, now: int)
      returns (result: Result<(), AuthError>)
      requires Valid()
      modifies users
      ensures Valid()
      ensures var o := TryResetPassword(old(users.users), email, token, newPassword, now);
        users.users == o.users && result == o.result
    {
      var found := users.FindUser(email);
      if found.None? {
        return Failure(NoAccount);
      }
      var u := found.value;
      if u.resetToken.None? || u.resetToken.value == "" || u.resetTokenExpiry.None? || u.resetTokenExpiry.value == 0 {
        return Failure(NoResetToken);
      }
      if u.resetToken.value != token {
        return Failure(InvalidResetToken);
      }
      if now > u.resetTokenExpiry.value {
        return Failure(ResetTokenExpired);
      }
      UpdateKeepsEmails(users.users, email, ResetPatch(newPassword));
      users.UpdateUser(email, ResetPatch(newPassword));
      return Success(());
    }
  }
}
