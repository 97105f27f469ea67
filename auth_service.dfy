/** The auth service's two handlers, `handleRegister` and `handleLogin`:
    early-return chains from the request body to a status code, over the
    credential store. */
module AuthService {
  import opened Js
  import opened Http
  import opened UsersDb
  import opened Tokens

  /** `req.body || {}` for `/auth/register`; an absent body is all `None`. */
  datatype RegisterBody = RegisterBody(email: Option<Json>, password: Option<Json>, rol: Option<Json>, nombre: Option<Json>)

  /** `req.body || {}` for `/auth/login`. */
  datatype LoginBody = LoginBody(email: Option<Json>, password: Option<Json>)

  /** `{ user, registerToken, message }`. */
  datatype Registered = Registered(user: PublicUser, registerToken: Claims, message: string)

  /** `{ accessToken, user: pub }`. */
  datatype LoggedIn = LoggedIn(accessToken: Claims, user: PublicUser)

  const MsgMissing: string := "email y password son obligatorios"
  const MsgDupEmail: string := "Email ya registrado"
  const MsgBadRole: string := "Rol inválido (use: paciente|medico|admin)"
  const MsgRegisterFailed: string := "Error registrando usuario"
  const MsgRegistered: string := "Registro exitoso. Ahora inicia sesión para continuar."
  const MsgBadCredentials: string := "Credenciales inválidas"
  const MsgLoginFailed: string := "Error en login"

  /** `bcrypt.compare(password, stored)`: true when `stored` is the hash of the
      password; `None` when the library throws because the password is not a
      string. */
  function Compare(hash: string -> string, password: Option<Json>, stored: string): Option<bool> {
    if password.Some? && password.value.JStr? then Some(stored == hash(password.value.s)) else None
  }

  /** The status and body `handleRegister` sends for each outcome of
      `createUser`. */
  function RegisterReply(created: Result<PublicUser>, nowSec: int): Response<Registered> {
    match created
    case Ok(user) => Success(201, Registered(user, SignRegisterToken(user, nowSec), MsgRegistered))
    case Err(DupEmail) => Failure(409, MsgDupEmail)
    case Err(BadRole) => Failure(400, MsgBadRole)
    case Err(Internal) => Failure(500, MsgRegisterFailed)
  }

  /** `handleRegister(req, reply)` against the table `users`. */
  function Register(users: map<string, UserRow>, hash: string -> string, body: RegisterBody,
                    nowMs: nat, createdAt: int, nowSec: int): Step<Response<Registered>>
  {
    var rol := Some(body.rol.GetOr(JStr(DefaultRol)));
    var nombre := Some(body.nombre.GetOr(JStr(DefaultNombre)));
    if !Truthy(body.email) || !Truthy(body.password) then Step(Failure(400, MsgMissing), users)
    else
      var created := CreateUserSpec(users, hash, body.email, body.password, rol, nombre, nowMs, createdAt);
      Step(RegisterReply(created.value, nowSec), created.users)
  }

  /** `handleLogin(req, reply)` against the table `users`. */
  function Login(users: map<string, UserRow>, hash: string -> string, body: LoginBody, nowSec: int): Response<LoggedIn> {
    if !Truthy(body.email) || !Truthy(body.password) then Failure(400, MsgMissing)
    else
      match GetUserByEmail(users, body.email)
      case Err(_) => Failure(500, MsgLoginFailed)
      case Ok(None) => Failure(401, MsgBadCredentials)
      case Ok(Some(user)) =>
        match Compare(hash, body.password, user.passwordHash)
        case None => Failure(500, MsgLoginFailed)
        case Some(ok) =>
          if !ok then Failure(401, MsgBadCredentials)
          else
            var pub := Public(user);
            Success(200, LoggedIn(SignAccessToken(pub, nowSec), pub))
  }

  method HandleRegister(store: UserStore, body: RegisterBody, nowMs: nat, createdAt: int, nowSec: int)
    returns (resp: Response<Registered>)
    requires store.Valid()
    modifies store
    ensures store.Valid()
    ensures Step(resp, store.users) == Register(old(store.users), store.hash, body, nowMs, createdAt, nowSec)
  {
    var rol := body.rol.GetOr(JStr(DefaultRol));
    var nombre := body.nombre.GetOr(JStr(DefaultNombre));
    if !Truthy(body.email) || !Truthy(body.password) {
      return Failure(400, MsgMissing);
    }
    var user := store.CreateUser(body.email, body.password, Some(rol), Some(nombre), nowMs, createdAt);
    match user {
      case Ok(u) =>
        var registerToken := SignRegisterToken(u, nowSec);
        resp := Success(201, Registered(u, registerToken, MsgRegistered));
      case Err(DupEmail) =>
        resp := Failure(409, MsgDupEmail);
      case Err(BadRole) =>
        resp := Failure(400, MsgBadRole);
      case Err(Internal) =>
        resp := Failure(500, MsgRegisterFailed);
    }
  }

  method HandleLogin(store: UserStore, body: LoginBody, nowSec: int) returns (resp: Response<LoggedIn>)
    ensures resp == Login(store.users, store.hash, body, nowSec)
  {
    if !Truthy(body.email) || !Truthy(body.password) {
      return Failure(400, MsgMissing);
    }
    var found := GetUserByEmail(store.users, body.email);
    if found.Err? {
      return Failure(500, MsgLoginFailed);
    }
    if found.value.None? {
      return Failure(401, MsgBadCredentials);
    }
    var user := found.value.value;
    var ok := Compare(store.hash, body.password, user.passwordHash);
    if ok.None? {
      return Failure(500, MsgLoginFailed);
    }
    if !ok.value {
      return Failure(401, MsgBadCredentials);
    }
    var pub := Public(user);
    var accessToken := SignAccessToken(pub, nowSec);
    resp := Success(200, LoggedIn(accessToken, pub));
  }

  /** A missing or empty email or password is a 400, and the store is
      neither consulted nor changed. */
  lemma RegisterMissingFields(users: map<string, UserRow>, hash: string -> string, body: RegisterBody,
                              nowMs: nat, createdAt: int, nowSec: int)
    requires !Truthy(body.email) || !Truthy(body.password)
    ensures Register(users, hash, body, nowMs, createdAt, nowSec) == Step(Failure(400, MsgMissing), users)
  {
  }

  /** Once email and password are present, the reply is decided by
      `createUser` alone: `E_DUP_EMAIL` is 409, `E_BAD_ROLE` 400, any other
      failure 500, and the omitted `rol` and `nombre` reach it as 'paciente'
      and 'Usuario'. */
  lemma RegisterErrorMapping(users: map<string, UserRow>, hash: string -> string, body: RegisterBody,
                             nowMs: nat, createdAt: int, nowSec: int)
    requires Truthy(body.email) && Truthy(body.password)
    ensures var created := CreateUserSpec(users, hash, body.email, body.password, body.rol, body.nombre, nowMs, createdAt);
      var out := Register(users, hash, body, nowMs, createdAt, nowSec);
      && out.users == created.users
      && (created.value == Err(DupEmail) <==> out.value == Failure(409, MsgDupEmail))
      && (created.value == Err(BadRole) <==> out.value == Failure(400, MsgBadRole))
      && (created.value == Err(Internal) <==> out.value == Failure(500, MsgRegisterFailed))
      && (created.value.Ok? <==> out.value.Success?)
  {
  }

  /** A successful registration is a 201 carrying the new user (without its
      hash) and a `register` token for that user's id that lives ten
      minutes; the table gains the user's row and nothing else changes. */
  lemma RegisterSuccess(users: map<string, UserRow>, hash: string -> string, email: string, password: string,
                        body: RegisterBody, nowMs: nat, createdAt: int, nowSec: int)
    requires TableValid(users)
    requires body.email == Some(JStr(email)) && body.password == Some(JStr(password))
    requires Register(users, hash, body, nowMs, createdAt, nowSec).value.Success?
    ensures var out := Register(users, hash, body, nowMs, createdAt, nowSec);
      var reg := out.value.body;
      && out.value.code == 201
      && reg.user.email == email
      && reg.user.rol in AllowedRoles
      && reg.registerToken.kind == "register"
      && reg.registerToken.sub == reg.user.id
      && reg.registerToken.exp == nowSec + 600
      && email !in users
      && out.users == users[email := UserRow(reg.user.id, email, hash(password), reg.user.rol, reg.user.nombre, reg.user.createdAt)]
  {
  }

  /** A missing email or password is a 400 before any lookup. */
  lemma LoginMissingFields(users: map<string, UserRow>, hash: string -> string, body: LoginBody, nowSec: int)
    ensures !Truthy(body.email) || !Truthy(body.password) <==> Login(users, hash, body, nowSec) == Failure(400, MsgMissing)
  {
  }

  /** An unknown email and a wrong password give the very same 401 reply:
      for a string password, the reply is that 401 exactly when the email
      can be queried (no U+0000) and no stored user has it or the password
      does not hash to the stored hash. */
  lemma LoginUniformRejection(users: map<string, UserRow>, hash: string -> string, email: string, password: string, nowSec: int)
    requires TableValid(users)
    requires email != "" && password != ""
    ensures Login(users, hash, LoginBody(Some(JStr(email)), Some(JStr(password))), nowSec) == Failure(401, MsgBadCredentials)
        <==> NulFree(email) && (forall row :: row in users.Values && row.email == email ==> row.passwordHash != hash(password))
  {
    var body := LoginBody(Some(JStr(email)), Some(JStr(password)));
    if email in users {
      GetUserByEmailExact(users, email, users[email]);
    } else {
      GetUserByEmailMissing(users, email);
    }
  }

  /** Login succeeds only when the password matches the stored hash; it then
      answers with an 8-hour `access` token whose claims are the user's id,
      email, role and name, and with the user minus the hash. */
  lemma LoginSuccess(users: map<string, UserRow>, hash: string -> string, body: LoginBody, nowSec: int)
    requires TableValid(users)
    ensures var resp := Login(users, hash, body, nowSec);
      resp.Success? <==>
        && Truthy(body.email) && body.password.Some? && body.password.value.JStr? && body.password.value.s != ""
        && exists row :: row in users.Values && Ok(Some(row)) == GetUserByEmail(users, body.email) && row.passwordHash == hash(body.password.value.s)
    ensures var resp := Login(users, hash, body, nowSec);
      resp.Success? ==>
        var row := GetUserByEmail(users, body.email).value.value;
        && resp.code == 200
        && resp.body.user == Public(row)
        && row.passwordHash == hash(body.password.value.s)
        && resp.body.accessToken == Claims(row.id, row.email, row.rol, row.nombre, "access", nowSec, nowSec + 28800)
  {
    var resp := Login(users, hash, body, nowSec);
    if resp.Success? {
      var row := GetUserByEmail(users, body.email).value.value;
      assert row in users.Values;
    }
  }

  /** Registering and then logging in with the same email and password
      succeeds and yields the registered user and an access token for its id. */
  lemma RegisterThenLogin(users: map<string, UserRow>, hash: string -> string, email: string, password: string,
                          rol: Option<Json>, nombre: Option<Json>, nowMs: nat, createdAt: int, regSec: int, loginSec: int)
    requires TableValid(users)
    requires email != "" && password != ""
    requires Register(users, hash, RegisterBody(Some(JStr(email)), Some(JStr(password)), rol, nombre), nowMs, createdAt, regSec).value.Success?
    ensures var reg := Register(users, hash, RegisterBody(Some(JStr(email)), Some(JStr(password)), rol, nombre), nowMs, createdAt, regSec);
      var login := Login(reg.users, hash, LoginBody(Some(JStr(email)), Some(JStr(password))), loginSec);
      && login.Success?
      && login.body.user == reg.value.body.user
      && login.body.accessToken.sub == reg.value.body.user.id
      && login.body.accessToken.kind == "access"
  {
    var body := RegisterBody(Some(JStr(email)), Some(JStr(password)), rol, nombre);
    var reg := Register(users, hash, body, nowMs, createdAt, regSec);
    var created := CreateUserSpec(users, hash, body.email, body.password, Some(body.rol.GetOr(JStr(DefaultRol))),
                                  Some(body.nombre.GetOr(JStr(DefaultNombre))), nowMs, createdAt);
    assert created.value.Ok?;
    assert email in reg.users;
  }

  /** A second registration with an email that is already registered is a 409
      (for any permitted role, or none), and changes nothing. */
  lemma RegisterTwice(users: map<string, UserRow>, hash: string -> string, email: string, body1: RegisterBody,
                      body2: RegisterBody, nowMs1: nat, nowMs2: nat, createdAt1: int, createdAt2: int, sec1: int, sec2: int)
    requires TableValid(users)
    requires body1.email == Some(JStr(email)) && body2.email == Some(JStr(email))
    requires Truthy(body2.password)
    requires RoleAllowed(body2.rol.GetOr(JStr(DefaultRol)))
    requires Register(users, hash, body1, nowMs1, createdAt1, sec1).value.Success?
    ensures var first := Register(users, hash, body1, nowMs1, createdAt1, sec1);
      Register(first.users, hash, body2, nowMs2, createdAt2, sec2) == Step(Failure(409, MsgDupEmail), first.users)
  {
    var first := Register(users, hash, body1, nowMs1, createdAt1, sec1);
    CreateUserKeepsValid(users, hash, body1.email, body1.password, Some(body1.rol.GetOr(JStr(DefaultRol))),
                         Some(body1.nombre.GetOr(JStr(DefaultNombre))), nowMs1, createdAt1);
    assert email in first.users;
  }

  /** With a collision-free hash, any password other than the registered one
      is refused with 401. */
  lemma LoginOtherPasswordFails(users: map<string, UserRow>, hash: string -> string, email: string, password: string,
                                other: string, rol: Option<Json>, nombre: Option<Json>,
                                nowMs: nat, createdAt: int, regSec: int, loginSec: int)
    requires forall p1, p2 :: hash(p1) == hash(p2) ==> p1 == p2
    requires TableValid(users)
    requires email != "" && password != "" && other != "" && other != password
    requires Register(users, hash, RegisterBody(Some(JStr(email)), Some(JStr(password)), rol, nombre), nowMs, createdAt, regSec).value.Success?
    ensures var reg := Register(users, hash, RegisterBody(Some(JStr(email)), Some(JStr(password)), rol, nombre), nowMs, createdAt, regSec);
      Login(reg.users, hash, LoginBody(Some(JStr(email)), Some(JStr(other))), loginSec) == Failure(401, MsgBadCredentials)
  {
    var body := RegisterBody(Some(JStr(email)), Some(JStr(password)), rol, nombre);
    var reg := Register(users, hash, body, nowMs, createdAt, regSec);
    assert email in reg.users && reg.users[email].passwordHash == hash(password);
    assert hash(other) != hash(password);
  }

  /** PostgreSQL refuses a text parameter holding U+0000: an email holding
      it fails registration with 500 before the duplicate check can answer,
      and login with 500 rather than 401; a name holding it fails a
      registration that would otherwise insert, with 500. The table is left
      as it was. */
  lemma RejectsNulText(users: map<string, UserRow>, hash: string -> string, email: string, password: string,
                       nombre: string, nowMs: nat, createdAt: int, nowSec: int)
    requires TableValid(users)
    requires email != "" && password != ""
    ensures var body := RegisterBody(Some(JStr(email)), Some(JStr(password)), None, Some(JStr(nombre)));
      (!NulFree(email) || (!NulFree(nombre) && email !in users)) ==>
        Register(users, hash, body, nowMs, createdAt, nowSec) == Step(Failure(500, MsgRegisterFailed), users)
    ensures !NulFree(email) ==>
      Login(users, hash, LoginBody(Some(JStr(email)), Some(JStr(password))), nowSec) == Failure(500, MsgLoginFailed)
  {
    GetUserByEmailMissing(users, email);
    var created := CreateUserSpec(users, hash, Some(JStr(email)), Some(JStr(password)), Some(JStr(DefaultRol)),
                                  Some(JStr(nombre)), nowMs, createdAt);
    if !NulFree(email) {
      assert created == Step(Err(Internal), users);
    } else if !NulFree(nombre) && email !in users {
      assert GetUserByEmail(users, Some(JStr(email))) == Ok(None);
      assert created == Step(Err(Internal), users);
    }
  }
}
