/**
  The credential store of database/databasesingleton.cpp. The `users` table
  has a UNIQUE username column, so it is a map from username to password
  hash; `lastError` keeps the text of the last failure.
*/
module Database {

  const USER_EXISTS := "Пользователь с таким именем уже существует"

  /** The table and the last error, as a value. */
  datatype Store = Store(users: map<string, string>, lastError: string)

  /**
    registerUser on a store: whether it succeeded, and the store after it.
    A new username is inserted with its hash; an existing one is refused,
    the table is left as it was and the error is recorded.
  */
  function Register(s: Store, username: string, passwordHash: string): (r: (bool, Store))
    ensures r.0 <==> username !in s.users
    ensures r.0 ==> r.1.users == s.users[username := passwordHash] && r.1.lastError == s.lastError
    ensures !r.0 ==> r.1.users == s.users && r.1.lastError == USER_EXISTS
  {
    if username in s.users then (false, s.(lastError := USER_EXISTS))
    else (true, s.(users := s.users[username := passwordHash]))
  }

  /** loginUser on a store: the table maps the username to exactly this hash. */
  predicate Login(s: Store, username: string, passwordHash: string) {
    username in s.users && s.users[username] == passwordHash
  }

  /** Registration never overwrites a stored hash, and it only ever adds the one username. */
  lemma RegisterKeepsUsers(s: Store, username: string, passwordHash: string)
    ensures var s' := Register(s, username, passwordHash).1;
      s.users.Keys <= s'.users.Keys <= s.users.Keys + {username} &&
      forall u | u in s.users :: s'.users[u] == s.users[u]
  {
  }

  /** A username registers once: the second attempt is refused and leaves the first hash in place. */
  lemma RegisterTwiceFails(s: Store, username: string, hash1: string, hash2: string)
    ensures Register(s, username, hash1).0 ==>
      var s' := Register(s, username, hash1).1;
      !Register(s', username, hash2).0 &&
      Register(s', username, hash2).1 == Store(s'.users, USER_EXISTS) &&
      Login(Register(s', username, hash2).1, username, hash1)
  {
  }

  /** After a successful registration the same credentials log in, and no other hash does. */
  lemma RegisterThenLogin(s: Store, username: string, passwordHash: string, other: string)
    requires Register(s, username, passwordHash).0
    ensures Login(Register(s, username, passwordHash).1, username, passwordHash)
    ensures other != passwordHash ==> !Login(Register(s, username, passwordHash).1, username, other)
  {
  }

  /** DatabaseSingleton: the one store the server uses. */
  class DatabaseSingleton {
    /** The users table: username to password hash. */
    var users: map<string, string>
    /** m_lastError. */
    var lastErrorText: string

    function State(): Store
      reads this
    {
      Store(users, lastErrorText)
    }

    /** A freshly initialised store: no users and no error. */
    constructor ()
      ensures users == map[] && lastErrorText == ""
    {
      users := map[];
      lastErrorText := "";
    }

    /** registerUser: refuse an existing username, otherwise insert (username, hash). */
    method RegisterUser(username: string, passwordHash: string) returns (ok: bool)
      modifies this
      ensures (ok, State()) == Register(old(State()), username, passwordHash)
    {
      var alreadyThere := UserExists(username);
      if alreadyThere {
        lastErrorText := USER_EXISTS;
        return false;
      }
      users := users[username := passwordHash];
      return true;
    }

    /** loginUser: true exactly when the table maps the username to this hash. */
    method LoginUser(username: string, passwordHash: string) returns (ok: bool)
      ensures ok <==> username in users && users[username] == passwordHash
    {
      ok := username in users && users[username] == passwordHash;
    }

    /** userExists: true exactly when the username is in the table. */
    method UserExists(username: string) returns (found: bool)
      ensures found <==> username in users
    {
      found := username in users;
    }

    function LastError(): string
      reads this
    {
      lastErrorText
    }
  }
}
