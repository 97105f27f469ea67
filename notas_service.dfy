/** The clinical-note service: `POST /citas/:id/nota` appends a SOAP note
    (subjective, objective, assessment, plan) for appointment `:id` to the
    in-memory list `NOTAS`, `GET /citas/:id/nota` lists that appointment's
    notes. Both run behind the bearer gate. */
module NotasService {
  import opened Js
  import opened Http
  import opened Tokens
  import opened BearerGate

  /** `req.body || {}`: `{ S, O, A, P }`. */
  datatype NotaBody = NotaBody(S: Option<Json>, O: Option<Json>, A: Option<Json>, P: Option<Json>)

  /** `{ id, citaId, autorId, S, O, A, P, createdAt }`. */
  datatype Nota = Nota(id: string, citaId: string, autorId: string, S: Json, O: Json, A: Json, P: Json, createdAt: string)

  const MsgEmpty: string := "Debe enviar al menos un campo de la nota (S,O,A,P)"

  /** `!S && !O && !A && !P` is the 400 case. */
  predicate HasContent(b: NotaBody) {
    Truthy(b.S) || Truthy(b.O) || Truthy(b.A) || Truthy(b.P)
  }

  /** The note the handler builds for appointment `citaId` by caller `sub`;
      `createdAt` is `new Date().toISOString()`. */
  function NewNota(citaId: string, sub: string, b: NotaBody, nowMs: nat, createdAt: string): (n: Nota)
    ensures n.citaId == citaId && n.autorId == sub && n.createdAt == createdAt
    ensures n.S == OrNull(b.S) && n.O == OrNull(b.O) && n.A == OrNull(b.A) && n.P == OrNull(b.P)
    ensures HasContent(b) <==> Truthy(Some(n.S)) || Truthy(Some(n.O)) || Truthy(Some(n.A)) || Truthy(Some(n.P))
    ensures n.id == "n" + NatToString(nowMs)
  {
    Nota("n" + NatToString(nowMs), citaId, sub, OrNull(b.S), OrNull(b.O), OrNull(b.A), OrNull(b.P), createdAt)
  }

  /** `NOTAS.filter(n => n.citaId === citaId)`. */
  function ForCita(notas: seq<Nota>, citaId: string): (r: seq<Nota>)
    ensures forall n :: n in r <==> n in notas && n.citaId == citaId
    ensures |r| <= |notas|
  {
    if notas == [] then []
    else (if notas[0].citaId == citaId then [notas[0]] else []) + ForCita(notas[1..], citaId)
  }

  /** The listing keeps insertion order (oldest first; nothing sorts it): the
      listing of a concatenation is the concatenation of the listings. */
  lemma {:induction false} ForCitaConcat(a: seq<Nota>, b: seq<Nota>, citaId: string)
    ensures ForCita(a + b, citaId) == ForCita(a, citaId) + ForCita(b, citaId)
  {
    if a != [] {
      assert (a + b)[1..] == a[1..] + b;
      ForCitaConcat(a[1..], b, citaId);
    } else {
      assert a + b == b;
    }
  }

  /** After a note is added for an appointment, that appointment's listing is
      the old one with the new note last; other appointments' listings are
      unchanged. */
  lemma ForCitaAfterCreate(notas: seq<Nota>, n: Nota, other: string)
    ensures ForCita(notas + [n], n.citaId) == ForCita(notas, n.citaId) + [n]
    ensures other != n.citaId ==> ForCita(notas + [n], other) == ForCita(notas, other)
  {
    ForCitaConcat(notas, [n], n.citaId);
    ForCitaConcat(notas, [n], other);
  }

  /** The listing is not scoped by caller: every note of the appointment is
      listed, whoever wrote it. */
  lemma ForCitaIncludesEveryAuthor(notas: seq<Nota>, citaId: string, i: nat)
    requires i < |notas| && notas[i].citaId == citaId
    ensures notas[i] in ForCita(notas, citaId)
  {
  }

  /** The service's module state: `NOTAS`, and its `jwt.verify` signature check. */
  class NotasApp {
    var notas: seq<Nota>
    const decode: string -> Option<Claims>

    constructor (decode: string -> Option<Claims>)
      ensures notas == [] && this.decode == decode
    {
      notas := [];
      this.decode := decode;
    }

    /** `POST /citas/:id/nota` with path id `citaId` and header
        `Authorization: header`. */
    method Create(header: Option<string>, citaId: string, body: NotaBody, nowMs: nat, nowSec: int, createdAt: string)
      returns (resp: Response<Nota>)
      modifies this
      ensures match Authenticate(header, decode, nowSec)
        case Rejected(m) => resp == Failure(401, m) && notas == old(notas)
        case Admitted(user) =>
          if !HasContent(body) then resp == Failure(400, MsgEmpty) && notas == old(notas)
          else
            var n := NewNota(citaId, user.sub, body, nowMs, createdAt);
            resp == Success(200, n) && notas == old(notas) + [n]
    {
      var gate := Authenticate(header, decode, nowSec);
      if gate.Rejected? {
        return Failure(401, gate.message);
      }
      if !Truthy(body.S) && !Truthy(body.O) && !Truthy(body.A) && !Truthy(body.P) {
        return Failure(400, MsgEmpty);
      }
      var nota := NewNota(citaId, gate.user.sub, body, nowMs, createdAt);
      notas := notas + [nota];
      resp := Success(200, nota);
    }

    /** `GET /citas/:id/nota` with path id `citaId` and header
        `Authorization: header`; the caller's identity plays no part once
        admitted. */
    method List(header: Option<string>, citaId: string, nowSec: int) returns (resp: Response<seq<Nota>>)
      ensures match Authenticate(header, decode, nowSec)
        case Rejected(m) => resp == Failure(401, m)
        case Admitted(_) => resp == Success(200, ForCita(notas, citaId))
    {
      var gate := Authenticate(header, decode, nowSec);
      if gate.Rejected? {
        return Failure(401, gate.message);
      }
      resp := Success(200, ForCita(notas, citaId));
    }
  }
}
