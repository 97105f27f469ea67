/** The credential store of the auth service: the `users` table, the role
    whitelist, user-id generation, `getUserByEmail` and `createUser`.
    The table is a map from email to row; bcrypt's hash is an opaque
    function the store is configured with. */
module UsersDb {
  import opened Js

  const AllowedRoles: seq<string> := ["paciente", "medico", "admin"]
  const DefaultRol: string := "paciente"
  const DefaultNombre: string := "Usuario"

  /** `ALLOWED_ROLES.includes(rol)`: strict equality, so only one of the three
      strings passes; null, numbers and any other string do not. */
  predicate RoleAllowed(rol: Json) {
    rol.JStr? && rol.s in AllowedRoles
  }

  /** `'u' + Date.now()`. */
  function GenUserId(nowMs: nat): (id: string)
    ensures |id| >= 2 && id[0] == 'u' && AllDigits(id[1..])
  {
    "u" + NatToString(nowMs)
  }

  /** Ids drawn at different milliseconds differ (ids drawn in the same
      millisecond coincide, and the table's primary key then refuses the
      second insert). */
  lemma GenUserIdInjective(a: nat, b: nat)
    ensures GenUserId(a) == GenUserId(b) <==> a == b
  {
    if GenUserId(a) == GenUserId(b) {
      assert NatToString(a) == GenUserId(a)[1..];
      assert NatToString(b) == GenUserId(b)[1..];
      NatToStringInjective(a, b);
    }
  }

  /** A row of `users`; `createdAt` is the database's `now()` at insertion. */
  datatype UserRow = UserRow(id: string, email: string, passwordHash: string, rol: string, nombre: string, createdAt: int)

  /** What the store hands out: a row without its password hash
      (`RETURNING id, email, rol, nombre, created_at`, and the login handler's
      `{ password_hash, ...pub }`). */
  datatype PublicUser = PublicUser(id: string, email: string, rol: string, nombre: string, createdAt: int)

  function Public(row: UserRow): (u: PublicUser)
    ensures u.id == row.id && u.email == row.email && u.rol == row.rol
    ensures u.nombre == row.nombre && u.createdAt == row.createdAt
  {
    PublicUser(row.id, row.email, row.rol, row.nombre, row.createdAt)
  }

  /** The error codes `createUser` throws with: `E_BAD_ROLE`, `E_DUP_EMAIL`,
      and anything else (bcrypt refusing a non-string password, a NOT NULL or
      PRIMARY KEY violation, a text parameter holding U+0000). */
  datatype StoreError = BadRole | DupEmail | Internal

  datatype Result<T> = Ok(value: T) | Err(error: StoreError)

  /** A value together with the table after the step that produced it. */
  datatype Step<T> = Step(value: T, users: map<string, UserRow>)

  /** PostgreSQL refuses a text value holding the character U+0000
      (SQLSTATE 22021), in a query parameter as in a stored column. */
  predicate NulFree(s: string) {
    '\0' !in s
  }

  /** Each row sits under its own email, no two rows share an id
      (`id TEXT PRIMARY KEY`), and no stored email or name holds U+0000. */
  ghost predicate TableValid(users: map<string, UserRow>) {
    && (forall e :: e in users ==> users[e].email == e && NulFree(e) && NulFree(users[e].nombre))
    && (forall e1, e2 :: e1 in users && e2 in users && users[e1].id == users[e2].id ==> e1 == e2)
  }

  /** No two stored records share an email. */
  ghost predicate EmailsUnique(users: map<string, UserRow>) {
    forall r1, r2 :: r1 in users.Values && r2 in users.Values && r1.email == r2.email ==> r1 == r2
  }

  lemma ValidEmailsUnique(users: map<string, UserRow>)
    requires TableValid(users)
    ensures EmailsUnique(users)
  {
    forall r1, r2 | r1 in users.Values && r2 in users.Values && r1.email == r2.email
      ensures r1 == r2
    {
      var e1 :| e1 in users && users[e1] == r1;
      var e2 :| e2 in users && users[e2] == r2;
    }
  }

  /** How node-postgres sends a JavaScript value as a query parameter:
      undefined and null become SQL NULL, everything else its `toString()`. */
  function SqlParam(v: Option<Json>): (p: Option<string>)
    ensures p.None? <==> v.None? || v.value.JNull?
    ensures v.Some? && v.value.JStr? ==> p == Some(v.value.s)
  {
    match v
    case None => None
    case Some(JNull) => None
    case Some(JBool(b)) => Some(if b then "true" else "false")
    case Some(JNum(n)) => Some(IntToString(n))
    case Some(JStr(s)) => Some(s)
  }

  predicate IdTaken(users: map<string, UserRow>, id: string) {
    exists e :: e in users && users[e].id == id
  }

  /** `SELECT ... FROM users WHERE email=$1 LIMIT 1`, then `rows[0] || null`;
      the query throws when the parameter holds U+0000. */
  function GetUserByEmail(users: map<string, UserRow>, email: Option<Json>): (r: Result<Option<UserRow>>)
  {
    var key := SqlParam(email);
    if key.Some? && !NulFree(key.value) then Err(Internal)
    else if key.Some? && key.value in users then Ok(Some(users[key.value]))
    else Ok(None)
  }

  /** On a valid table the lookup finds exactly the row whose email equals
      the parameter, character for character. */
  lemma GetUserByEmailExact(users: map<string, UserRow>, email: string, row: UserRow)
    requires TableValid(users)
    ensures GetUserByEmail(users, Some(JStr(email))) == Ok(Some(row)) <==> row in users.Values && row.email == email
  {
    if row in users.Values && row.email == email {
      var e :| e in users && users[e] == row;
    }
  }

  /** The lookup answers null exactly when the email holds no U+0000 and no
      stored row has it, and throws exactly when the email holds U+0000. */
  lemma GetUserByEmailMissing(users: map<string, UserRow>, email: string)
    requires TableValid(users)
    ensures GetUserByEmail(users, Some(JStr(email))) == Ok(None)
        <==> NulFree(email) && forall row :: row in users.Values ==> row.email != email
    ensures GetUserByEmail(users, Some(JStr(email))) == Err(Internal) <==> !NulFree(email)
  {
    if GetUserByEmail(users, Some(JStr(email))).Ok? && GetUserByEmail(users, Some(JStr(email))).value.Some? {
      assert users[email] in users.Values;
    }
  }

  /** `createUser({ email, password, rol = 'paciente', nombre = 'Usuario' })`:
      role whitelist, then the duplicate check, then bcrypt, then the insert. */
  function CreateUserSpec(users: map<string, UserRow>, hash: string -> string, email: Option<Json>,
                          password: Option<Json>, rol: Option<Json>, nombre: Option<Json>,
                          nowMs: nat, createdAt: int): Step<Result<PublicUser>>
  {
    var r := rol.GetOr(JStr(DefaultRol));
    var n := nombre.GetOr(JStr(DefaultNombre));
    if !RoleAllowed(r) then Step(Err(BadRole), users)
    else if GetUserByEmail(users, email).Err? then Step(Err(Internal), users)
    else if GetUserByEmail(users, email).value.Some? then Step(Err(DupEmail), users)
    else if !(password.Some? && password.value.JStr?) then Step(Err(Internal), users)
    else
      var id := GenUserId(nowMs);
      var emailParam := SqlParam(email);
      var nombreParam := SqlParam(Some(n));
      if emailParam.None? || nombreParam.None? || !NulFree(nombreParam.value) || IdTaken(users, id) then
        Step(Err(Internal), users)
      else
        var row := UserRow(id, emailParam.value, hash(password.value.s), r.s, nombreParam.value, createdAt);
        Step(Ok(Public(row)), users[row.email := row])
  }

  /** A `rol` outside the whitelist fails with `E_BAD_ROLE` before the table
      is consulted: even when the email is already registered, and the table
      is left as it was. */
  lemma CreateUserBadRole(users: map<string, UserRow>, hash: string -> string, email: Option<Json>,
                          password: Option<Json>, rol: Option<Json>, nombre: Option<Json>,
                          nowMs: nat, createdAt: int)
    requires !RoleAllowed(rol.GetOr(JStr(DefaultRol)))
    ensures CreateUserSpec(users, hash, email, password, rol, nombre, nowMs, createdAt) == Step(Err(BadRole), users)
  {
  }

  /** An allowed role with an email that is already stored fails with
      `E_DUP_EMAIL` and leaves the table as it was. */
  lemma CreateUserDuplicate(users: map<string, UserRow>, hash: string -> string, email: string,
                            password: Option<Json>, rol: Option<Json>, nombre: Option<Json>,
                            nowMs: nat, createdAt: int, existing: UserRow)
    requires TableValid(users)
    requires RoleAllowed(rol.GetOr(JStr(DefaultRol)))
    requires existing in users.Values && existing.email == email
    ensures CreateUserSpec(users, hash, Some(JStr(email)), password, rol, nombre, nowMs, createdAt) == Step(Err(DupEmail), users)
  {
    GetUserByEmailExact(users, email, existing);
  }

  /** Omitting `rol` and `nombre` is the same as passing 'paciente' and
      'Usuario'; passing null is not omitting (null is not a permitted role). */
  lemma CreateUserDefaults(users: map<string, UserRow>, hash: string -> string, email: Option<Json>,
                           password: Option<Json>, nowMs: nat, createdAt: int)
    ensures CreateUserSpec(users, hash, email, password, None, None, nowMs, createdAt)
         == CreateUserSpec(users, hash, email, password, Some(JStr(DefaultRol)), Some(JStr(DefaultNombre)), nowMs, createdAt)
    ensures CreateUserSpec(users, hash, email, password, Some(JNull), None, nowMs, createdAt) == Step(Err(BadRole), users)
  {
  }

  /** Success for string inputs: exactly when the role is permitted, the email
      is new, neither email nor name holds U+0000, and the generated id is free; the table then gains exactly one
      row, under the email, holding the email, role, name and the password's
      hash, every other row is unchanged, and the caller gets that row
      without its hash. */
  lemma CreateUserSuccess(users: map<string, UserRow>, hash: string -> string, email: string,
                          password: string, rol: string, nombre: string,
                          nowMs: nat, createdAt: int)
    requires TableValid(users)
    ensures var out := CreateUserSpec(users, hash, Some(JStr(email)), Some(JStr(password)), Some(JStr(rol)), Some(JStr(nombre)), nowMs, createdAt);
      && (out.value.Ok? <==> rol in AllowedRoles && email !in users && NulFree(email) && NulFree(nombre)
                              && !IdTaken(users, GenUserId(nowMs)))
      && (out.value.Ok? ==>
            var row := UserRow(GenUserId(nowMs), email, hash(password), rol, nombre, createdAt);
            && out.value.value == Public(row)
            && email !in users
            && out.users == users[email := row]
            && |out.users| == |users| + 1
            && (forall e :: e in users ==> e in out.users && out.users[e] == users[e]))
      && (out.value.Err? ==> out.users == users)
  {
  }

  /** Every step of `createUser` keeps the table valid and never touches an
      existing row. */
  lemma CreateUserKeepsValid(users: map<string, UserRow>, hash: string -> string, email: Option<Json>,
                             password: Option<Json>, rol: Option<Json>, nombre: Option<Json>,
                             nowMs: nat, createdAt: int)
    requires TableValid(users)
    ensures var out := CreateUserSpec(users, hash, email, password, rol, nombre, nowMs, createdAt);
      && TableValid(out.users)
      && (forall e :: e in users ==> e in out.users && out.users[e] == users[e])
      && (out.value.Err? ==> out.users == users)
      && (out.value.Ok? ==> |out.users| == |users| + 1)
  {
    var r := rol.GetOr(JStr(DefaultRol));
    var n := nombre.GetOr(JStr(DefaultNombre));
    var found := GetUserByEmail(users, email);
    var emailParam := SqlParam(email);
    var nombreParam := SqlParam(Some(n));
    var id := GenUserId(nowMs);
    if RoleAllowed(r) && found == Ok(None) && password.Some? && password.value.JStr?
       && emailParam.Some? && nombreParam.Some? && NulFree(nombreParam.value) && !IdTaken(users, id) {
      var row := UserRow(id, emailParam.value, hash(password.value.s), r.s, nombreParam.value, createdAt);
      assert row.email !in users && NulFree(row.email);
      InsertKeepsValid(users, row);
    }
  }

  /** Inserting a row under a new, NUL-free email with a NUL-free name and a
      fresh id keeps the table valid. */
  lemma InsertKeepsValid(users: map<string, UserRow>, row: UserRow)
    requires TableValid(users)
    requires row.email !in users && NulFree(row.email) && NulFree(row.nombre) && !IdTaken(users, row.id)
    ensures TableValid(users[row.email := row])
  {
    assert forall e :: e in users ==> users[e].id != row.id;
  }

  /** One call of `createUser` as a client issues it. */
  datatype CreateRequest = CreateRequest(email: Option<Json>, password: Option<Json>, rol: Option<Json>,
                                         nombre: Option<Json>, nowMs: nat, createdAt: int)

  /** The table after a sequence of `createUser` calls, one after the other. */
  function RunCreates(users: map<string, UserRow>, hash: string -> string, reqs: seq<CreateRequest>): map<string, UserRow>
    decreases |reqs|
  {
    if reqs == [] then users
    else
      var q := reqs[0];
      RunCreates(CreateUserSpec(users, hash, q.email, q.password, q.rol, q.nombre, q.nowMs, q.createdAt).users, hash, reqs[1..])
  }

  /** Over any sequence of calls starting from a valid table (the empty one,
      say), no two stored records share an email or an id, and no record
      once stored is altered or lost. */
  lemma {:induction false} RunCreatesKeepsEmailsUnique(users: map<string, UserRow>, hash: string -> string, reqs: seq<CreateRequest>)
    requires TableValid(users)
    ensures TableValid(RunCreates(users, hash, reqs))
    ensures EmailsUnique(RunCreates(users, hash, reqs))
    ensures forall e :: e in users ==> e in RunCreates(users, hash, reqs) && RunCreates(users, hash, reqs)[e] == users[e]
    decreases |reqs|
  {
    if reqs == [] {
      ValidEmailsUnique(users);
    } else {
      var q := reqs[0];
      CreateUserKeepsValid(users, hash, q.email, q.password, q.rol, q.nombre, q.nowMs, q.createdAt);
      var next := CreateUserSpec(users, hash, q.email, q.password, q.rol, q.nombre, q.nowMs, q.createdAt).users;
      RunCreatesKeepsEmailsUnique(next, hash, reqs[1..]);
    }
  }

  /** The `users` table of the auth service's database. */
  class UserStore {
    var users: map<string, UserRow>
    /** `bcrypt.hash(_, ROUNDS)`, opaque; `bcrypt.compare(p, h)` is `h == hash(p)`. */
    const hash: string -> string

    ghost predicate Valid()
      reads this
    {
      TableValid(users)
    }

    constructor (hash: string -> string)
      ensures Valid() && users == map[] && this.hash == hash
    {
      users := map[];
      this.hash := hash;
    }

    method CreateUser(email: Option<Json>, password: Option<Json>, rol: Option<Json>, nombre: Option<Json>,
                      nowMs: nat, createdAt: int) returns (r: Result<PublicUser>)
      requires Valid()
      modifies this
      ensures Valid()
      ensures Step(r, users) == CreateUserSpec(old(users), hash, email, password, rol, nombre, nowMs, createdAt)
    {
      CreateUserKeepsValid(users, hash, email, password, rol, nombre, nowMs, createdAt);
      var rolValue := rol.GetOr(JStr(DefaultRol));
      var nombreValue := nombre.GetOr(JStr(DefaultNombre));
      if !RoleAllowed(rolValue) {
        return Err(BadRole);
      }
      var found := GetUserByEmail(users, email);
      if found.Err? {
        return Err(Internal);  // the query refused the parameter
      }
      if found.value.Some? {
        return Err(DupEmail);
      }
      if !(password.Some? && password.value.JStr?) {
        return Err(Internal);  // bcrypt rejects a password that is not a string
      }
      var passwordHash := hash(password.value.s);
      var id := GenUserId(nowMs);
      var emailParam := SqlParam(email);
      var nombreParam := SqlParam(Some(nombreValue));
      if emailParam.None? || nombreParam.None? || !NulFree(nombreParam.value) || IdTaken(users, id) {
        return Err(Internal);  // NOT NULL or PRIMARY KEY violation, or a refused parameter
      }
      var row := UserRow(id, emailParam.value, passwordHash, rolValue.s, nombreParam.value, createdAt);
      users := users[row.email := row];
      r := Ok(Public(row));
    }
  }
}
