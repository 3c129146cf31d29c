/**
 * The registered-user table (src/store/usersStore.ts): users are appended
 * under a fresh id, looked up by exact email (first match), and patched by
 * email with a shallow merge.  The fresh id `crypto.randomUUID()` would
 * produce is a parameter.
 */
module UsersStore {
  import opened Wrappers

  /** A stored account, password in clear as the source keeps it. */
  datatype User = User(
    id: string,
    email: string,
    name: string,
    password: string,
    resetToken: Option<string>,
    resetTokenExpiry: Option<int>)

  /** What `addUser` is given: a user without `id`. */
  datatype NewUser = NewUser(
    email: string,
    name: string,
    password: string,
    resetToken: Option<string>,
    resetTokenExpiry: Option<int>)

  /**
   * A `Partial<User>`: `None` is a key that is absent, so the field is kept.
   * For the optional fields `Some(None)` is a key present with the value
   * `undefined`, which clears the field.
   */
  datatype UserPatch = UserPatch(
    id: Option<string>,
    email: Option<string>,
    name: Option<string>,
    password: Option<string>,
    resetToken: Option<Option<string>>,
    resetTokenExpiry: Option<Option<int>>)

  const NoChange: UserPatch := UserPatch(None, None, None, None, None, None)

  function Pick<T>(patch: Option<T>, current: T): T {
    if patch.Some? then patch.value else current
  }

  /** `{ ...user, ...updates }` */
  function Merge(u: User, updates: UserPatch): (r: User)
    ensures updates.id.Some? ==> r.id == updates.id.value
    ensures updates.id.None? ==> r.id == u.id
    ensures updates.email.Some? ==> r.email == updates.email.value
    ensures updates.email.None? ==> r.email == u.email
    ensures updates.name.Some? ==> r.name == updates.name.value
    ensures updates.name.None? ==> r.name == u.name
    ensures updates.password.Some? ==> r.password == updates.password.value
    ensures updates.password.None? ==> r.password == u.password
    ensures updates.resetToken.Some? ==> r.resetToken == updates.resetToken.value
    ensures updates.resetToken.None? ==> r.resetToken == u.resetToken
    ensures updates.resetTokenExpiry.Some? ==> r.resetTokenExpiry == updates.resetTokenExpiry.value
    ensures updates.resetTokenExpiry.None? ==> r.resetTokenExpiry == u.resetTokenExpiry
  {
    User(Pick(updates.id, u.id), Pick(updates.email, u.email), Pick(updates.name, u.name),
         Pick(updates.password, u.password), Pick(updates.resetToken, u.resetToken),
         Pick(updates.resetTokenExpiry, u.resetTokenExpiry))
  }

  /** An empty patch changes nothing. */
  lemma MergeNoChange(u: User)
    ensures Merge(u, NoChange) == u
  {
  }

  /** `{ ...userData, id }` */
  function WithId(data: NewUser, id: string): User {
    User(id, data.email, data.name, data.password, data.resetToken, data.resetTokenExpiry)
  }

  /** `users.find(user => user.email === email)`: the first user with exactly this email. */
  function Find(users: seq<User>, email: string): (r: Option<User>)
    ensures r.None? <==> forall u :: u in users ==> u.email != email
    ensures r.Some? ==> exists i :: 0 <= i < |users| && users[i] == r.value && r.value.email == email
                          && forall j :: 0 <= j < i ==> users[j].email != email
  {
    if users == [] then None
    else if users[0].email == email then Some(users[0])
    else
      var r := Find(users[1..], email);
      assert forall u :: u in users[1..] ==> u in users;
      assert forall u :: u in users ==> u == users[0] || u in users[1..];
      if r.Some? then
        var i :| 0 <= i < |users[1..]| && users[1..][i] == r.value && r.value.email == email
                && forall j :: 0 <= j < i ==> users[1..][j].email != email;
        assert users[i + 1] == r.value;
        assert forall j :: 0 <= j < i + 1 ==> users[j].email != email by {
          forall j | 0 <= j < i + 1 ensures users[j].email != email {
            if j > 0 { assert users[j] == users[1..][j - 1]; }
          }
        }
        r
      else r
  }

  /** `users.map(user => user.email === email ? { ...user, ...updates } : user)` */
  function UpdateWhere(users: seq<User>, email: string, updates: UserPatch): (r: seq<User>)
    ensures |r| == |users|
    ensures forall i :: 0 <= i < |users| && users[i].email == email ==> r[i] == Merge(users[i], updates)
    ensures forall i :: 0 <= i < |users| && users[i].email != email ==> r[i] == users[i]
  {
    seq(|users|, i requires 0 <= i < |users| =>
                   if users[i].email == email then Merge(users[i], updates) else users[i])
  }

  /** No two users share an email. */
  predicate DistinctEmails(users: seq<User>) {
    forall i, j :: 0 <= i < j < |users| ==> users[i].email != users[j].email
  }

  /** Appending a user whose email is not taken keeps emails distinct, and that user is then found. */
  lemma AppendNewEmail(users: seq<User>, u: User)
    requires DistinctEmails(users) && Find(users, u.email).None?
    ensures DistinctEmails(users + [u])
    ensures Find(users + [u], u.email) == Some(u)
  {
    var r := users + [u];
    forall i, j | 0 <= i < j < |r| ensures r[i].email != r[j].email {
      assert r[i] == users[i] && users[i] in users;
      if j < |users| { assert r[j] == users[j]; }
    }
    var found := Find(r, u.email);
    var k :| 0 <= k < |r| && r[k] == found.value && found.value.email == u.email;
    assert forall i :: 0 <= i < |users| ==> r[i] == users[i] && users[i] in users;
  }

  /** A patch that leaves `email` alone keeps emails, and hence their distinctness, unchanged. */
  lemma UpdateKeepsEmails(users: seq<User>, email: string, updates: UserPatch)
    requires updates.email.None?
    ensures var r := UpdateWhere(users, email, updates);
      && (forall i :: 0 <= i < |users| ==> r[i].email == users[i].email)
      && (DistinctEmails(users) ==> DistinctEmails(r))
  {
  }

  /** After patching every user with `email`, the user found by `email` carries the patch. */
  lemma FindAfterUpdate(users: seq<User>, email: string, updates: UserPatch)
    requires updates.email.None?
    ensures Find(users, email).Some? ==>
              Find(UpdateWhere(users, email, updates), email) == Some(Merge(Find(users, email).value, updates))
    ensures Find(users, email).None? ==> Find(UpdateWhere(users, email, updates), email).None?
  {
    if Find(users, email).Some? {
      FindAfterUpdateFound(users, email, updates);
    } else {
      FindAfterUpdateMissing(users, email, updates);
    }
  }

  /** The user at the first index holding `email` is the one found. */
  lemma {:induction false} FindAt(users: seq<User>, email: string, i: nat)
    requires i < |users| && users[i].email == email
    requires forall j :: 0 <= j < i ==> users[j].email != email
    ensures Find(users, email) == Some(users[i])
  {
    if i > 0 {
      FindAt(users[1..], email, i - 1);
    }
  }

  lemma FindAfterUpdateFound(users: seq<User>, email: string, updates: UserPatch)
    requires updates.email.None? && Find(users, email).Some?
    ensures Find(UpdateWhere(users, email, updates), email) == Some(Merge(Find(users, email).value, updates))
  {
    var r := UpdateWhere(users, email, updates);
    UpdateKeepsEmails(users, email, updates);
    var before := Find(users, email);
    var i :| 0 <= i < |users| && users[i] == before.value && before.value.email == email
            && forall j :: 0 <= j < i ==> users[j].email != email;
    FindAt(r, email, i);
  }

  lemma FindAfterUpdateMissing(users: seq<User>, email: string, updates: UserPatch)
    requires updates.email.None? && Find(users, email).None?
    ensures Find(UpdateWhere(users, email, updates), email).None?
  {
    var r := UpdateWhere(users, email, updates);
    UpdateKeepsEmails(users, email, updates);
    forall u | u in r ensures u.email != email {
      var k :| 0 <= k < |r| && r[k] == u;
      assert users[k] in users;
    }
  }

  /** The persisted user table. */
  class Users {
    var users: seq<User>

    constructor ()
      ensures users == []
    {
      users := [];
    }

    /** `addUser(userData)` */
    method AddUser(userData: NewUser, freshId: string)
      modifies this
      ensures users == old(users) + [WithId(userData, freshId)]
    {
      users := users + [WithId(userData, freshId)];
    }

    /** `findUser(email)` */
    method FindUser(email: string) returns (user: Option<User>)
      ensures user == Find(users, email)
      ensures user.Some? ==> user.value in users && user.value.email == email
    {
      user := Find(users, email);
    }

    /** `updateUser(email, updates)` */
    method UpdateUser(email: string, updates: UserPatch)
      modifies this
      ensures users == UpdateWhere(old(users), email, updates)
    {
      users := UpdateWhere(users, email, updates);
    }
  }
}
