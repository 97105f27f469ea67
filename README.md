# Auth, appointments and clinical notes of a healthcare portal, in Dafny

This project models the decision logic and in-memory state underneath three
Fastify microservices of a healthcare portal MVP:

- **auth**: the credential store (`users` table, role whitelist
  `paciente|medico|admin`, `createUser`, `getUserByEmail`), the two token
  kinds it issues (an 8-hour `access` session token and a 10-minute
  `register` token), and the `register` / `login` handlers with their
  status codes (400, 401, 409, 500, 201, 200).
- **citas** (appointments) and **notas** (SOAP clinical notes): the
  `requireAuth` bearer gate, which both services define identically and the
  model defines once, and the create/list handlers over the module-level
  lists `CITAS` and `NOTAS`.

Layout, one module per concern:

| file | module | models |
|---|---|---|
| js.dfy | `Js`, `Http` | JSON body values, JavaScript truthiness, `x \|\| null`, integer-to-decimal rendering; the reply type |
| users_db.dfy | `UsersDb` | auth/src/db.js: the table as a map from email to row, `createUser`, `getUserByEmail`, `genUserId` |
| tokens.dfy | `Tokens` | auth/src/index.js: `signAccessToken`, `signRegisterToken`, token expiry |
| auth_service.dfy | `AuthService` | auth/src/index.js: `handleRegister`, `handleLogin` |
| bearer_gate.dfy | `BearerGate` | `requireAuth` of citas/src/index.js and notas/src/index.js |
| citas_service.dfy | `CitasService` | citas/src/index.js: `POST /citas`, `GET /citas` |
| notas_service.dfy | `NotasService` | notas/src/index.js: `POST /citas/:id/nota`, `GET /citas/:id/nota` |

Modelling choices:

- A request body field is an `Option<Json>`: `None` is `undefined` (absent),
  and `Json` is null, a boolean, an integer or a string. Truthiness follows
  JavaScript exactly for these values. Destructuring defaults (`rol =
  'paciente'`, `nombre = 'Usuario'`) replace only `undefined`, so an explicit
  `rol: null` is a bad role.
- Query parameters follow node-postgres. `undefined` and `null` become SQL
  NULL, and any other value becomes its `toString()`.
- The `users` table is a `map<string, UserRow>` keyed by email. `TableValid`
  says each row sits under its own email, ids are unique (the primary key),
  and no stored email or name holds U+0000, a character PostgreSQL refuses
  in text. A query whose text parameter holds U+0000 fails.
  `createUser` runs its checks in the source's order: role whitelist,
  exact-match duplicate check, bcrypt (which throws on a non-string
  password), then the insert. The insert fails on a NULL email or name
  (NOT NULL), on a name holding U+0000, or on an id already taken
  (PRIMARY KEY). It is a pure function
  `CreateUserSpec` over the table, and `UserStore.CreateUser` is the
  step-by-step method proved equal to it.
- bcrypt is an opaque `hash: string -> string` that the store holds, and
  `compare(p, h)` is `h == hash(p)`. A signed JWT is represented by its
  claims record (`sub, email, rol, nombre, kind, iat, exp`). Each resource
  service checks signatures with an opaque `decode` function. After a good
  signature, the signing library's expiry rule applies: a token carrying
  `exp` is refused once `now >= exp`. Every modelled token carries `exp`,
  as every token the auth service signs does.
- Ids and timestamps (`Date.now()`, the database's `now()`,
  `new Date().toISOString()`) are inputs.

Behaviour of the code worth stating outright:

- The resource gates never look at a token's `kind`, so a live `register`
  token is admitted like an `access` token (`BearerGate.AdmitsAnyKind`).
- `GET /citas/:id/nota` returns notes in insertion order, oldest first
  (`NotasService.ForCitaConcat`, `NotasService.ForCitaAfterCreate`).
- Registration returns `registerToken`, a 10-minute `register` token, and
  no session token.
- The auth service has no `GET /me` endpoint.
- Note listing is scoped by appointment id only, never by caller
  (`NotasService.ForCitaIncludesEveryAuthor`).

## Model

| member | source | states |
|---|---|---|
| `Js.OrNull` | citas/src/index.js:40 | `v \|\| null` is truthy exactly when `v` is; it is `v` itself when `v` is truthy, null otherwise |
| `Js.ParseNatToString` | auth/src/db.js:13 | the decimal rendering of a timestamp reads back as the same number |
| `UsersDb.GenUserIdInjective` | auth/src/db.js:13 | `'u' + Date.now()` gives equal ids exactly for equal milliseconds |
| `UsersDb.ValidEmailsUnique` | auth/src/db.js:24 | in a valid table no two stored records share an email |
| `UsersDb.GetUserByEmailExact` | auth/src/db.js:49-55 | the lookup returns a row exactly when that row is stored with that exact (case-sensitive) email |
| `UsersDb.GetUserByEmailMissing` | auth/src/db.js:49-55 | the lookup returns null exactly when the email holds no U+0000 and no stored row has it, and the query throws exactly when the email holds U+0000 |
| `UsersDb.CreateUserBadRole` | auth/src/db.js:57-60 | a role outside the whitelist (including null) fails with `E_BAD_ROLE` and leaves the table unchanged, whatever the email |
| `UsersDb.CreateUserDuplicate` | auth/src/db.js:62-65 | with a permitted role and an already-stored email, the call fails with `E_DUP_EMAIL` and the table is unchanged |
| `UsersDb.CreateUserDefaults` | auth/src/db.js:57 | an omitted `rol`/`nombre` behaves as 'paciente'/'Usuario'; a null `rol` is `E_BAD_ROLE` |
| `UsersDb.CreateUserSuccess` | auth/src/db.js:67-77 | succeeds iff the role is permitted, the email is new, neither email nor name holds U+0000 and the id is free; the table then gains exactly one row (email, role, name, hash of the password) and nothing else changes; the caller gets that row without its hash |
| `UsersDb.CreateUserKeepsValid` | auth/src/db.js:57-77 | every outcome keeps the table valid, never alters an existing row, and a failure leaves the table unchanged |
| `UsersDb.RunCreatesKeepsEmailsUnique` | auth/src/db.js:62-75 | over any sequence of calls the table stays valid, no two records share an email, and stored records are never altered or lost |
| `UsersDb.UserStore.CreateUser` | auth/src/db.js:57-78 | the step-by-step method returns what `CreateUserSpec` returns and leaves the table it gives, and keeps the table valid |
| `Tokens.TokenClaims` | auth/src/index.js:21-46 | both tokens carry the user's id, email, role and name; kinds 'access' and 'register'; lifetimes 28800 s and 600 s |
| `Tokens.TokenLifetimes` | auth/src/index.js:31-45 | a register token is live only in its first 10 minutes, an access token in its first 8 hours |
| `BearerGate.BearerTokenRoundTrip` | citas/src/index.js:15-16 | the gate extracts token `t` exactly from the header `"Bearer " + t` |
| `BearerGate.NoTokenIff` | citas/src/index.js:15-17 | "No token" exactly when the header is absent, lacks the exact case-sensitive prefix, or is the prefix alone |
| `BearerGate.AdmittedIff` | notas/src/index.js:15-25 | with a non-empty token, admitted with its claims iff its signature checks and it has not expired, otherwise "Invalid token" |
| `BearerGate.AdmitsAnyKind` | citas/src/index.js:18-20 | a live, well-signed `register` token is admitted: the gate ignores `kind` |
| `BearerGate.RejectsExpired` | notas/src/index.js:19-23 | a well-signed token whose `exp` has passed gets 401 "Invalid token" |
| `AuthService.HandleRegister` | auth/src/index.js:68-105 | the handler's reply and the new table are those of the `Register` chain; the table stays valid |
| `AuthService.HandleLogin` | auth/src/index.js:113-142 | the handler's reply is that of the `Login` chain |
| `AuthService.RegisterMissingFields` | auth/src/index.js:77-81 | a missing or falsy email or password gives 400 and the table is untouched |
| `AuthService.RegisterErrorMapping` | auth/src/index.js:93-104 | `E_DUP_EMAIL` gives 409, `E_BAD_ROLE` 400, any other failure 500, success a Success; the defaults reach `createUser` |
| `AuthService.RegisterSuccess` | auth/src/index.js:83-92 | success is 201 with the user and a `register` token whose `sub` is the user id and which expires 600 s after issue; the table gains exactly that user's row |
| `AuthService.LoginMissingFields` | auth/src/index.js:115-120 | 400 exactly when email or password is missing or falsy, before any lookup |
| `AuthService.LoginUniformRejection` | auth/src/index.js:122-130 | unknown email and wrong password both give the identical 401 'Credenciales inválidas', and nothing else gives it (an email holding U+0000 gives 500 instead) |
| `AuthService.LoginSuccess` | auth/src/index.js:127-137 | login succeeds iff the stored hash is the hash of the given string password; it returns 200, the user without hash, and an 8-hour `access` token with the user's claims |
| `AuthService.RegisterThenLogin` | auth/src/index.js:83-137 | after a successful registration, logging in with the same credentials succeeds and returns the registered user and an access token for its id |
| `AuthService.RegisterTwice` | auth/src/index.js:83-96 | registering an already registered email again (permitted role) gives 409 and changes nothing |
| `AuthService.RejectsNulText` | auth/src/index.js:93-140 | an email holding U+0000 makes registration and login fail with 500; a name holding it makes an otherwise successful registration fail with 500; the table is unchanged |
| `AuthService.LoginOtherPasswordFails` | auth/src/index.js:127-130 | with a collision-free hash, any other password for a registered email gives 401 |
| `CitasService.NewCita` | citas/src/index.js:35-42 | the new appointment is owned by the caller, is 'pendiente', keeps `medicoId`/`fechaHora`, and has `motivo` or null |
| `CitasService.Mine` | citas/src/index.js:49 | the listing holds exactly the appointments whose `pacienteId` is the caller's `sub` |
| `CitasService.MineConcat` | citas/src/index.js:49 | listing preserves insertion order: the listing of `a + b` is the listing of `a` followed by that of `b` |
| `CitasService.MineAfterCreate` | citas/src/index.js:37-49 | after caller X creates an appointment, it is the last element of X's listing and absent from every other caller's, whose listings are unchanged |
| `CitasService.CitasApp.Create` | citas/src/index.js:30-45 | gate failure gives 401, missing `medicoId`/`fechaHora` gives 400, in both cases `CITAS` unchanged; otherwise exactly one new appointment is appended and returned |
| `CitasService.CitasApp.List` | citas/src/index.js:48-51 | 401 when the gate refuses, otherwise the caller's appointments; `CITAS` is not modified |
| `NotasService.NewNota` | notas/src/index.js:37-43 | the note carries the path's `citaId`, the caller as author, and each of S/O/A/P or null; it has content iff the body had |
| `NotasService.ForCita` | notas/src/index.js:51 | the listing holds exactly the notes whose `citaId` is the path id |
| `NotasService.ForCitaConcat` | notas/src/index.js:49-52 | the listing keeps insertion order, with no sorting |
| `NotasService.ForCitaAfterCreate` | notas/src/index.js:44-51 | after a note is posted for an appointment, that appointment's next listing ends with it; other listings are unchanged |
| `NotasService.ForCitaIncludesEveryAuthor` | notas/src/index.js:49-52 | every note of the appointment is listed, whoever wrote it |
| `NotasService.NotasApp.Create` | notas/src/index.js:31-46 | gate failure gives 401, S, O, A and P all falsy give 400, in both cases `NOTAS` unchanged; otherwise exactly one note is appended and returned |
| `NotasService.NotasApp.List` | notas/src/index.js:49-52 | 401 when the gate refuses, otherwise the appointment's notes whatever the caller; `NOTAS` is not modified |

## Left out

- Database availability: connection failures, pool timeouts and `init()` are not modelled. Their replies are 500 in the source. The 500 paths the model does reach are bcrypt refusing a non-string password, PostgreSQL refusing a text parameter that holds U+0000, and a NOT NULL or PRIMARY KEY violation on insert.
- The check-then-insert race between concurrent registrations, and the unique constraint as the final authority. The model is sequential.
- bcrypt internals: salting, the work factor `BCRYPT_ROUNDS`, and truncation to 72 bytes. The hash is one deterministic opaque function, so `AuthService.LoginOtherPasswordFails` assumes it has no collisions.
- JWT encoding and signing with `JWT_SECRET`: a token is its claims record, and signature checking is an opaque `decode` parameter. Expiry is checked as the signing library does it.
- Verified payloads that the auth service never issues are not modelled. One kind lacks a string `sub`. The other lacks `exp`: the signing library checks expiry only when `exp` is present, so such a payload, signed with the secret (`'dev-secret'` unless configured), is admitted by `requireAuth` at every time. `Tokens.Claims` always has an `exp`, so `BearerGate.Verify` cannot express it.
- Strings are sequences of Unicode scalar values. JavaScript strings holding unpaired surrogates (which `JSON.parse` accepts from `"\ud800"`) are not modelled. node-postgres sends them as UTF-8 with each unpaired surrogate replaced by U+FFFD, so two distinct emails such as `"\ud800@x"` and `"\udc00@x"` collide in the lookup and the insert, and the second registration is a 409.
- Request bodies holding JSON objects, arrays or non-integer numbers, and integers of magnitude above 2^53: `JSON.parse` rounds those to the nearest double and `String()` prints the shortest digits that read back as that double, while the model keeps and prints the exact integer.
- The uniqueness of ids: they come from `Date.now()`, which is an input, and the model does not claim them unique.
- Server plumbing: Fastify setup, CORS, `listen`, logging, `/health` probes, environment and configuration loading. The route aliases `/register` and `/login` reach the same handlers.
- citas/src/db.js and notas/src/db.js (database wrappers the handlers never call) and notif/src/index.js (a health check only) are not part of this model.
