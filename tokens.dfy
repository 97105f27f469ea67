/** The two kinds of JSON Web Token the auth service issues, and the expiry
    rule the verifying side applies to them. A signed token is modelled by
    the claims it carries; signing and the signature itself are opaque. */
module Tokens {
  import opened UsersDb

  /** `expiresIn: '8h'` for a session token. */
  const AccessLifetime: int := 8 * 60 * 60
  /** `expiresIn: '10m'` for a registration token. */
  const RegisterLifetime: int := 10 * 60

  const AccessKind: string := "access"
  const RegisterKind: string := "register"

  /** The payload of a token: `sub, email, rol, nombre, kind` as the service
      writes them, `iat` and `exp` (seconds) as the signing library adds them. */
  datatype Claims = Claims(sub: string, email: string, rol: string, nombre: string, kind: string, iat: int, exp: int)

  /** `jwt.sign({ sub: u.id, email: u.email, rol: u.rol, nombre: u.nombre, kind }, SECRET, { expiresIn })`
      at second `nowSec`. */
  function Sign(u: PublicUser, kind: string, lifetime: int, nowSec: int): Claims {
    Claims(u.id, u.email, u.rol, u.nombre, kind, nowSec, nowSec + lifetime)
  }

  /** `signAccessToken(u)`. */
  function SignAccessToken(u: PublicUser, nowSec: int): Claims {
    Sign(u, AccessKind, AccessLifetime, nowSec)
  }

  /** `signRegisterToken(u)`. */
  function SignRegisterToken(u: PublicUser, nowSec: int): Claims {
    Sign(u, RegisterKind, RegisterLifetime, nowSec)
  }

  /** Whether the token is still accepted at second `nowSec`: the signing
      library rejects a token once the clock has reached `exp`. */
  predicate Live(c: Claims, nowSec: int) {
    nowSec < c.exp
  }

  /** Both tokens name the user they were issued for (subject, email, role,
      name), differ in `kind`, and live 8 hours and 10 minutes respectively. */
  lemma TokenClaims(u: PublicUser, nowSec: int)
    ensures var a := SignAccessToken(u, nowSec);
      && a.sub == u.id && a.email == u.email && a.rol == u.rol && a.nombre == u.nombre
      && a.kind == "access" && a.iat == nowSec && a.exp - a.iat == 28800
    ensures var r := SignRegisterToken(u, nowSec);
      && r.sub == u.id && r.email == u.email && r.rol == u.rol && r.nombre == u.nombre
      && r.kind == "register" && r.iat == nowSec && r.exp - r.iat == 600
  {
  }

  /** A registration token is live exactly during its first ten minutes, an
      access token during its first eight hours; so at any moment after ten
      minutes a registration token is dead while the access token issued with
      it may still be live. */
  lemma TokenLifetimes(u: PublicUser, issuedAt: int, t: int)
    ensures Live(SignRegisterToken(u, issuedAt), t) <==> t < issuedAt + 600
    ensures Live(SignAccessToken(u, issuedAt), t) <==> t < issuedAt + 28800
    ensures Live(SignRegisterToken(u, issuedAt), t) ==> Live(SignAccessToken(u, issuedAt), t)
  {
  }
}
