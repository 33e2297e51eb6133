/**
  handlers/authhandler.cpp: registration and login requests. Both read
  "username" and "password" from the request data, refuse empty fields, hash
  the password with SHA-384 and hand only the hash to the credential store.
*/
module Auth {
  import opened Platform
  import opened Json
  import opened Protocol
  import opened Database

  const EMPTY_FIELDS := "Имя пользователя и пароль не могут быть пустыми"
  const REGISTERED := "Регистрация успешно завершена"
  const LOGGED_IN := "Авторизация успешна"
  const INVALID_CREDENTIALS := "Неверное имя пользователя или пароль"

  function Username(request: Request): string {
    ToString(request.Data("username"))
  }

  function Password(request: Request): string {
    ToString(request.Data("password"))
  }

  /**
    handleRegister: the response and the store after it. Empty fields are
    refused without touching the store; otherwise the store registers the
    username with the SHA-384 hash of the password, and a refusal carries
    the store's last error.
  */
  function RegisterReply(request: Request, s: Store, env: Env): (r: (Response, Store))
    ensures Username(request) == "" || Password(request) == "" ==> r == (ErrorResponse(EMPTY_FIELDS), s)
    ensures Username(request) != "" && Password(request) != "" ==>
      r.1 == Register(s, Username(request), env.sha384Hex(Password(request))).1
    ensures r.0.Status() == SUCCESS <==>
      Username(request) != "" && Password(request) != "" && Username(request) !in s.users
    ensures r.0.Status() == SUCCESS ==> r.0.Data("message") == Str(REGISTERED) && r.0.ErrorMessage() == ""
    ensures r.0.Status() != SUCCESS ==>
      r.0 == ErrorResponse(if Username(request) == "" || Password(request) == "" then EMPTY_FIELDS else r.1.lastError)
  {
    var username := Username(request);
    var password := Password(request);
    if username == "" || password == "" then
      (ErrorResponse(EMPTY_FIELDS), s)
    else
      var passwordHash := env.sha384Hex(password);
      var (success, s') := Register(s, username, passwordHash);
      if success then
        (Response.WithStatus(SUCCESS).SetData("message", Str(REGISTERED)), s')
      else
        (ErrorResponse(s'.lastError), s')
  }

  /**
    handleLogin: SUCCESS exactly when both fields are non-empty and the store
    maps the username to the SHA-384 hash of the password; it then carries a
    message and echoes the username. Every other outcome is an ERROR with one
    of two fixed messages.
  */
  function LoginReply(request: Request, s: Store, env: Env): (r: Response)
    ensures r.Status() == SUCCESS <==>
      Username(request) != "" && Password(request) != "" && Login(s, Username(request), env.sha384Hex(Password(request)))
    ensures r.Status() == SUCCESS ==>
      r.Data("message") == Str(LOGGED_IN) && r.Data("username") == Str(Username(request)) && r.ErrorMessage() == ""
    ensures r.Status() != SUCCESS ==>
      r == ErrorResponse(if Username(request) == "" || Password(request) == "" then EMPTY_FIELDS else INVALID_CREDENTIALS)
  {
    var username := Username(request);
    var password := Password(request);
    if username == "" || password == "" then
      ErrorResponse(EMPTY_FIELDS)
    else
      var passwordHash := env.sha384Hex(password);
      if Login(s, username, passwordHash) then
        Response.WithStatus(SUCCESS).SetData("message", Str(LOGGED_IN)).SetData("username", Str(username))
      else
        ErrorResponse(INVALID_CREDENTIALS)
  }

  /**
    A login failure does not say why: an unknown username and a wrong
    password give the same response.
  */
  lemma LoginFailureIsUniform(r1: Request, r2: Request, s: Store, env: Env)
    requires Username(r1) != "" && Password(r1) != "" && Username(r2) != "" && Password(r2) != ""
    requires LoginReply(r1, s, env).Status() == ERROR && LoginReply(r2, s, env).Status() == ERROR
    ensures LoginReply(r1, s, env) == LoginReply(r2, s, env) == ErrorResponse(INVALID_CREDENTIALS)
  {
  }

  /** Registering a username and then logging in with the same fields succeeds. */
  lemma RegisterThenLoginSucceeds(register: Request, login: Request, s: Store, env: Env)
    requires RegisterReply(register, s, env).0.Status() == SUCCESS
    requires Username(login) == Username(register) && Password(login) == Password(register)
    ensures LoginReply(login, RegisterReply(register, s, env).1, env).Status() == SUCCESS
  {
    RegisterThenLogin(s, Username(register), env.sha384Hex(Password(register)), "");
  }

  /**
    The store only ever sees the hash: two passwords with the same SHA-384
    hash register the same store entry.
  */
  lemma StoreSeesOnlyHash(r1: Request, r2: Request, s: Store, env: Env)
    requires Username(r1) == Username(r2) && Password(r1) != "" && Password(r2) != ""
    requires env.sha384Hex(Password(r1)) == env.sha384Hex(Password(r2))
    ensures RegisterReply(r1, s, env) == RegisterReply(r2, s, env)
  {
  }

  /** AuthHandler: its store is the shared DatabaseSingleton. */
  class AuthHandler {
    const db: DatabaseSingleton
    const env: Env

    constructor (db: DatabaseSingleton, env: Env)
      ensures this.db == db && this.env == env
    {
      this.db := db;
      this.env := env;
    }

    /** handleRegister. */
    method HandleRegister(request: Request) returns (response: Response)
      modifies db
      ensures (response, db.State()) == RegisterReply(request, old(db.State()), env)
    {
      var username := ToString(request.Data("username"));
      var password := ToString(request.Data("password"));
      if username == "" || password == "" {
        return ErrorResponse(EMPTY_FIELDS);
      }
      var passwordHash := env.sha384Hex(password);
      var success := db.RegisterUser(username, passwordHash);
      if success {
        response := Response.WithStatus(SUCCESS);
        response := response.SetData("message", Str(REGISTERED));
      } else {
        response := Response.WithStatus(ERROR);
        response := response.SetErrorMessage(db.LastError());
      }
    }

    /** handleLogin. */
    method HandleLogin(request: Request) returns (response: Response)
      ensures response == LoginReply(request, db.State(), env)
    {
      var username := ToString(request.Data("username"));
      var password := ToString(request.Data("password"));
      if username == "" || password == "" {
        return ErrorResponse(EMPTY_FIELDS);
      }
      var passwordHash := env.sha384Hex(password);
      var success := db.LoginUser(username, passwordHash);
      if success {
        response := Response.WithStatus(SUCCESS);
        response := response.SetData("message", Str(LOGGED_IN));
        response := response.SetData("username", Str(username));
      } else {
        response := Response.WithStatus(ERROR);
        response := response.SetErrorMessage(INVALID_CREDENTIALS);
      }
    }
  }
}
