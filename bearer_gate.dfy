/** `requireAuth`, the pre-handler the appointment and note services each
    define (the two copies are identical): take the bearer token out of the
    `Authorization` header, verify it, and either attach its claims to the
    request or answer 401. */
module BearerGate {
  import opened Js
  import opened Tokens

  const Scheme: string := "Bearer "
  const NoToken: string := "No token"
  const InvalidToken: string := "Invalid token"

  /** Admitted with the verified claims (`req.user`), or rejected with the
      message of the 401 reply. */
  datatype Gate = Admitted(user: Claims) | Rejected(message: string)

  /** The token is the text after the case-sensitive prefix `Bearer `, and
      may be empty; there is none when the header is absent or lacks the
      prefix. */
  function BearerToken(header: Option<string>): Option<string> {
    var h := header.GetOr("");
    if Scheme <= h then Some(h[|Scheme|..]) else None
  }

  /** The header carries a bearer token exactly when it is the scheme followed
      by that token. */
  lemma BearerTokenRoundTrip(header: Option<string>, token: string)
    ensures BearerToken(header) == Some(token) <==> header == Some(Scheme + token)
  {
    if header == Some(Scheme + token) {
      assert (Scheme + token)[|Scheme|..] == token;
    }
    if BearerToken(header) == Some(token) {
      assert header.Some?;
      assert header.value[..|Scheme|] == Scheme;
      assert header.value == header.value[..|Scheme|] + header.value[|Scheme|..];
    }
  }

  /** `jwt.verify(token, SECRET)`: `decode` is the signature check with this
      service's secret (opaque), followed by the library's expiry check; any
      failure is one and the same error. */
  function Verify(decode: string -> Option<Claims>, token: string, nowSec: int): (r: Option<Claims>)
  {
    match decode(token)
    case None => None
    case Some(c) => if Live(c, nowSec) then Some(c) else None
  }

  /** `requireAuth(req, reply, done)`. */
  function Authenticate(header: Option<string>, decode: string -> Option<Claims>, nowSec: int): Gate {
    var token := BearerToken(header);
    if token.None? || token.value == "" then Rejected(NoToken)
    else
      match Verify(decode, token.value, nowSec)
      case None => Rejected(InvalidToken)
      case Some(c) => Admitted(c)
  }

  /** "No token" exactly when the header is absent, does not start with the
      exact (case-sensitive) prefix, or is the prefix alone. */
  lemma NoTokenIff(header: Option<string>, decode: string -> Option<Claims>, nowSec: int)
    ensures Authenticate(header, decode, nowSec) == Rejected(NoToken)
        <==> header.None? || !(Scheme <= header.value) || header.value == Scheme
  {
    if header.Some? && Scheme <= header.value && header.value != Scheme {
      var h := header.value;
      assert h == Scheme + h[|Scheme|..];
      assert h[|Scheme|..] != "";
    }
  }

  /** With a non-empty token after the prefix, the outcome depends on the
      token alone: admitted with its claims when it decodes and has not
      expired, otherwise "Invalid token". */
  lemma AdmittedIff(token: string, decode: string -> Option<Claims>, nowSec: int, c: Claims)
    requires token != ""
    ensures Authenticate(Some(Scheme + token), decode, nowSec) == Admitted(c)
        <==> decode(token) == Some(c) && nowSec < c.exp
    ensures Authenticate(Some(Scheme + token), decode, nowSec) == Rejected(InvalidToken)
        <==> decode(token).None? || nowSec >= decode(token).value.exp
  {
    BearerTokenRoundTrip(Some(Scheme + token), token);
  }

  /** The gate never looks at `kind`: a registration token that decodes and
      has not expired is admitted like a session token. */
  lemma AdmitsAnyKind(token: string, decode: string -> Option<Claims>, nowSec: int, u: UsersDb.PublicUser, issuedAt: int)
    requires token != ""
    requires decode(token) == Some(SignRegisterToken(u, issuedAt))
    requires nowSec < issuedAt + RegisterLifetime
    ensures Authenticate(Some(Scheme + token), decode, nowSec) == Admitted(SignRegisterToken(u, issuedAt))
    ensures Authenticate(Some(Scheme + token), decode, nowSec).user.kind == "register"
  {
    AdmittedIff(token, decode, nowSec, SignRegisterToken(u, issuedAt));
  }

  /** A token whose `exp` has passed is refused with "Invalid token" however
      good its signature. */
  lemma RejectsExpired(token: string, decode: string -> Option<Claims>, nowSec: int, c: Claims)
    requires token != ""
    requires decode(token) == Some(c) && c.exp <= nowSec
    ensures Authenticate(Some(Scheme + token), decode, nowSec) == Rejected(InvalidToken)
  {
    AdmittedIff(token, decode, nowSec, c);
  }
}
