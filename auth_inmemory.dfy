/** The in-memory user store and authenticator of src/auth/inmemory.rs. */
module AuthInMemory {
  import opened Wrappers

  /** A user: a name and the hash of its password. Hashing is not part of
      this model; the hash is whatever the caller supplies. */
  datatype User = User(name: string, passwordHash: string)

  /** `BasicAuth`: what a client presents, a principal name and a password. */
  datatype Principal = BasicAuth(principal: string, password: string)

  datatype StoreError = UserAlreadyExists(username: string) | DoesNotExist(username: string)

  /** What `add` does to a map of users: refuse a name already present,
      else insert under the user's name. */
  function Added(users: map<string, User>, user: User): (r: (Outcome<StoreError>, map<string, User>))
    ensures user.name in users ==> r == (Fail(UserAlreadyExists(user.name)), users)
    ensures user.name !in users ==> r.0 == Pass && r.1 == users[user.name := user]
  {
    if user.name in users then (Fail(UserAlreadyExists(user.name)), users)
    else (Pass, users[user.name := user])
  }

  /** `InMemoryUserStore`. */
  class InMemoryUserStore {
    var users: map<string, User>

    /** `new`: no users. */
    constructor()
      ensures users == map[]
    {
      users := map[];
    }

    /** `get`: the user stored under `username`, if any. */
    function Get(username: string): (u: Option<User>)
      reads this
      ensures u.Some? <==> username in users
      ensures u.Some? ==> u.value == users[username]
    {
      if username in users then Some(users[username]) else None
    }

    /** `authenticate`: the user stored under the principal's name, else
        `DoesNotExist`; the password is never looked at. */
    function Authenticate(p: Principal): (r: Result<User, StoreError>)
      reads this
      ensures r.Success? <==> p.principal in users
      ensures r.Success? ==> r.value == users[p.principal]
      ensures r.Failure? ==> r.error == DoesNotExist(p.principal)
    {
      if p.principal in users then Success(users[p.principal])
      else Failure(DoesNotExist(p.principal))
    }

    /** `add`. */
    method Add(user: User) returns (r: Outcome<StoreError>)
      modifies this
      ensures (r, users) == Added(old(users), user)
    {
      if user.name in users {
        return Fail(UserAlreadyExists(user.name));
      }
      users := users[user.name := user];
      return Pass;
    }

    /** `with_user`: add a user, aborting (the `unwrap`) when its name is
        taken. */
    method WithUser(username: string, passwordHash: string)
      requires username !in users
      modifies this
      ensures users == old(users)[username := User(username, passwordHash)]
    {
      var r := Add(User(username, passwordHash));
    }
  }

  /** `add` keeps exactly one user per name: entries under other names are
      untouched, and a refused add changes nothing. */
  lemma AddedKeepsOthers(users: map<string, User>, user: User, other: string)
    requires other != user.name
    ensures other in Added(users, user).1 <==> other in users
    ensures other in users ==> Added(users, user).1[other] == users[other]
    ensures Added(users, user).0.Fail? <==> user.name in users
  {
  }

  /** After a successful add the user is stored under its own name. */
  lemma AddStores(users: map<string, User>, user: User)
    requires Added(users, user).0.Pass?
    ensures user.name in Added(users, user).1
    ensures Added(users, user).1[user.name] == user
  {
  }

  /** The password is not consulted: two principals with the same name get
      the same answer. */
  lemma PasswordIgnored(s: InMemoryUserStore, name: string, p1: string, p2: string)
    ensures s.Authenticate(BasicAuth(name, p1)) == s.Authenticate(BasicAuth(name, p2))
  {
  }

  /** `InMemoryAuthenticator`: forwards to its user store. */
  class InMemoryAuthenticator {
    const userStore: InMemoryUserStore

    constructor(userStore: InMemoryUserStore)
      ensures this.userStore == userStore
    {
      this.userStore := userStore;
    }

    /** `authenticate`: exactly the store's answer. */
    function Authenticate(p: Principal): (r: Result<User, StoreError>)
      reads userStore
      ensures r.Success? <==> p.principal in userStore.users
      ensures r.Success? ==> r.value == userStore.users[p.principal]
      ensures r.Failure? ==> r.error == DoesNotExist(p.principal)
    {
      userStore.Authenticate(p)
    }
  }

  /** The test of src/auth/inmemory.rs: a store holding `test@email.com`
      authenticates that principal and returns the stored user. */
  method AuthenticateExample(passwordHash: string) returns (r: Result<User, StoreError>)
    ensures r == Success(User("test@email.com", passwordHash))
  {
    var store := new InMemoryUserStore();
    store.WithUser("test@email.com", passwordHash);
    var authenticator := new InMemoryAuthenticator(store);
    r := authenticator.Authenticate(BasicAuth("test@email.com", "password"));
  }
}
