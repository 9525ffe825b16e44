/** The username-to-password table of the page (kept in local storage there; an
    in-memory map here) and the three checks made against it: registration, login
    and password change. Presence follows JavaScript truthiness: a user whose stored
    password is "" counts as absent. */
module Credentials {
  import opened Outcomes

  /** Username to plain-text password. */
  type Users = map<string, string>

  /** Why an authentication intent was refused (each is a notification on the page). */
  datatype AuthError =
    | EmptyInput          // "Please enter username and password" / "Please fill in all fields"
    | PasswordMismatch    // "Passwords do not match!"
    | UsernameTaken       // "Username already exists!"
    | InvalidCredentials  // "Invalid username or password"

  /** `registeredUsers[name]` as JavaScript reads it: the stored password, or
      `undefined` (None) for a key the table does not hold. */
  function Lookup(users: Users, name: string): Option<string>
  {
    if name in users then Some(users[name]) else None
  }

  /** JavaScript truthiness of a looked-up password: `undefined` and "" are falsy. */
  predicate Truthy(v: Option<string>)
  {
    v.Some? && v.value != ""
  }

  /** The page's presence test `if (registeredUsers[name])`: the key is present with a
      non-empty password. */
  predicate Registered(users: Users, name: string): (r: bool)
    ensures r <==> Truthy(Lookup(users, name))
    ensures r ==> name in users.Keys
  {
    name in users && users[name] != ""
  }

  /** Registration: the confirmation must equal the password, and only then is the
      username checked for presence; on success the pair is stored. */
  function Register(users: Users, name: string, password: string, confirm: string): (r: Result<Users, AuthError>)
    ensures password != confirm ==> r == Err(PasswordMismatch)
    ensures password == confirm && Registered(users, name) ==> r == Err(UsernameTaken)
    ensures r.Ok? <==> password == confirm && !Registered(users, name)
    ensures r.Ok? ==> && r.value.Keys == users.Keys + {name}
                      && r.value[name] == password
                      && forall k :: k in users && k != name ==> r.value[k] == users[k]
  {
    if password != confirm then Err(PasswordMismatch)
    else if Registered(users, name) then Err(UsernameTaken)
    else Ok(users[name := password])
  }

  /** Login: both fields must be non-empty; with no key in the table at all any such
      pair is accepted (development fallback); otherwise the user must be present with
      exactly this password. Success yields the new current user. */
  function Login(users: Users, name: string, password: string): (r: Result<string, AuthError>)
    ensures name == "" || password == "" ==> r == Err(EmptyInput)
    ensures name != "" && password != "" && |users| == 0 ==> r == Ok(name)
    ensures name != "" && password != "" && |users| > 0 ==>
              r == (if name in users && users[name] == password then Ok(name) else Err(InvalidCredentials))
  {
    if name == "" || password == "" then Err(EmptyInput)
    else if |users| == 0 then Ok(name)
    else if Registered(users, name) && users[name] == password then Ok(name)
    else Err(InvalidCredentials)
  }

  /** Password change for `current`: both fields non-empty, then equal; the old
      password is never asked for. Success is reported even when `current` has no
      entry, in which case the table is left as it was. */
  function ChangePassword(users: Users, current: string, newPassword: string, confirm: string): (r: Result<Users, AuthError>)
    ensures newPassword == "" || confirm == "" ==> r == Err(EmptyInput)
    ensures newPassword != "" && confirm != "" && newPassword != confirm ==> r == Err(PasswordMismatch)
    ensures r.Ok? <==> newPassword != "" && newPassword == confirm
    ensures r.Ok? && Registered(users, current) ==>
              && r.value.Keys == users.Keys
              && r.value[current] == newPassword
              && forall k :: k in users && k != current ==> r.value[k] == users[k]
    ensures r.Ok? && !Registered(users, current) ==> r.value == users
  {
    if newPassword == "" || confirm == "" then Err(EmptyInput)
    else if newPassword != confirm then Err(PasswordMismatch)
    else if Registered(users, current) then Ok(users[current := newPassword])
    else Ok(users)
  }

  /** A user who has just registered with a non-empty name and password can log in with it. */
  lemma RegisterThenLogin(users: Users, name: string, password: string)
    requires name != "" && password != ""
    requires Register(users, name, password, password).Ok?
    ensures Login(Register(users, name, password, password).value, name, password) == Ok(name)
  {
  }

  /** Registering a name a second time is refused, once the first registration stored a
      non-empty password. */
  lemma RegisterTwiceFails(users: Users, name: string, password: string, other: string)
    requires password != "" && Register(users, name, password, password).Ok?
    ensures Register(Register(users, name, password, password).value, name, other, other) == Err(UsernameTaken)
  {
  }

  /** A registration that stored "" does not reserve the name: it may be registered again. */
  lemma EmptyPasswordDoesNotReserve(users: Users, name: string, other: string)
    requires Register(users, name, "", "").Ok?
    ensures Register(Register(users, name, "", "").value, name, other, other).Ok?
  {
  }

  /** After a password change of a registered user, the new password logs in and any
      other password is refused. */
  lemma ChangeThenLogin(users: Users, current: string, newPassword: string, other: string)
    requires current != "" && newPassword != "" && other != "" && other != newPassword
    requires Registered(users, current)
    ensures var r := ChangePassword(users, current, newPassword, newPassword);
      && r.Ok?
      && Login(r.value, current, newPassword) == Ok(current)
      && Login(r.value, current, other) == Err(InvalidCredentials)
  {
  }

  /** With an empty table any non-empty pair logs in. */
  lemma BootstrapLogin()
    ensures Login(map[], "alice", "x") == Ok("alice")
  {
  }

  /** A wrong password for a registered user is refused. */
  lemma WrongPasswordRefused()
    ensures Login(map["bob" := "pw1"], "bob", "wrong") == Err(InvalidCredentials)
  {
  }
}
