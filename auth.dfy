/** `BasicAuthenticator` of src/auth.rs: a username and password pair that
    authenticates only the fixed test account. */
module Auth {
  import opened Wrappers

  datatype User = User(authenticated: bool, username: string)

  datatype BasicAuthenticator = BasicAuthenticator(username: string, password: string)

  /** `BasicAuthenticator::new` stores both credentials unchanged. */
  function New(username: string, password: string): (a: BasicAuthenticator)
    ensures a.username == username && a.password == password
  {
    BasicAuthenticator(username, password)
  }

  /** `Authenticator::authenticate`. */
  function Authenticate(a: BasicAuthenticator): (u: Option<User>)
    ensures u.Some? <==> a.username == "test" && a.password == "test"
    ensures u.Some? ==> u.value == User(true, a.username)
  {
    if a.username == "test" && a.password == "test" then Some(User(true, a.username))
    else None
  }

  /** Exactly one pair of credentials is accepted, and the user it yields
      is authenticated under the name it was given. */
  lemma OnlyTestAccount(username: string, password: string)
    ensures Authenticate(New(username, password)).Some? <==> username == "test" && password == "test"
    ensures Authenticate(New(username, password)).Some? ==>
      Authenticate(New(username, password)).value.authenticated
      && Authenticate(New(username, password)).value.username == username
  {
  }
}
