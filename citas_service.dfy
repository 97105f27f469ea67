/** The appointment service: `POST /citas` appends an appointment owned by the
    caller to the in-memory list `CITAS`, `GET /citas` lists the caller's
    appointments. Both run behind the bearer gate. */
module CitasService {
  import opened Js
  import opened Http
  import opened Tokens
  import opened BearerGate

  /** `req.body || {}`: `{ medicoId, fechaHora, motivo }`. */
  datatype CitaBody = CitaBody(medicoId: Option<Json>, fechaHora: Option<Json>, motivo: Option<Json>)

  /** `{ id, pacienteId, medicoId, fechaHora, motivo, estado }`. */
  datatype Cita = Cita(id: string, pacienteId: string, medicoId: Json, fechaHora: Json, motivo: Json, estado: string)

  const Pendiente: string := "pendiente"
  const MsgMissing: string := "medicoId y fechaHora son requeridos"

  /** `!medicoId || !fechaHora` is the 400 case. */
  predicate ValidCitaBody(b: CitaBody) {
    Truthy(b.medicoId) && Truthy(b.fechaHora)
  }

  /** The appointment the handler builds for caller `sub` at millisecond
      `nowMs`. */
  function NewCita(sub: string, b: CitaBody, nowMs: nat): (c: Cita)
    requires ValidCitaBody(b)
    ensures c.pacienteId == sub && c.estado == "pendiente"
    ensures Some(c.medicoId) == b.medicoId && Some(c.fechaHora) == b.fechaHora
    ensures Truthy(b.motivo) ==> Some(c.motivo) == b.motivo
    ensures !Truthy(b.motivo) ==> c.motivo == JNull
    ensures c.id == "c" + NatToString(nowMs)
  {
    Cita("c" + NatToString(nowMs), sub, b.medicoId.value, b.fechaHora.value, OrNull(b.motivo), Pendiente)
  }

  /** `CITAS.filter(c => c.pacienteId === sub)`. */
  function Mine(citas: seq<Cita>, sub: string): (r: seq<Cita>)
    ensures forall c :: c in r <==> c in citas && c.pacienteId == sub
    ensures |r| <= |citas|
  {
    if citas == [] then []
    else (if citas[0].pacienteId == sub then [citas[0]] else []) + Mine(citas[1..], sub)
  }

  /** Filtering keeps the order of the list: the listing of a concatenation
      is the concatenation of the listings. */
  lemma {:induction false} MineConcat(a: seq<Cita>, b: seq<Cita>, sub: string)
    ensures Mine(a + b, sub) == Mine(a, sub) + Mine(b, sub)
  {
    if a != [] {
      assert (a + b)[1..] == a[1..] + b;
      MineConcat(a[1..], b, sub);
    } else {
      assert a + b == b;
    }
  }

  /** After caller X adds an appointment, X's listing is the old one with the
      new appointment last, and every other caller's listing is unchanged. */
  lemma MineAfterCreate(citas: seq<Cita>, c: Cita, other: string)
    ensures Mine(citas + [c], c.pacienteId) == Mine(citas, c.pacienteId) + [c]
    ensures other != c.pacienteId ==> Mine(citas + [c], other) == Mine(citas, other) && c !in Mine(citas + [c], other)
  {
    MineConcat(citas, [c], c.pacienteId);
    MineConcat(citas, [c], other);
  }

  /** The service's module state: `CITAS`, and its `jwt.verify` signature check. */
  class CitasApp {
    var citas: seq<Cita>
    const decode: string -> Option<Claims>

    constructor (decode: string -> Option<Claims>)
      ensures citas == [] && this.decode == decode
    {
      citas := [];
      this.decode := decode;
    }

    /** `POST /citas` with header `Authorization: header`. */
    method Create(header: Option<string>, body: CitaBody, nowMs: nat, nowSec: int) returns (resp: Response<Cita>)
      modifies this
      ensures match Authenticate(header, decode, nowSec)
        case Rejected(m) => resp == Failure(401, m) && citas == old(citas)
        case Admitted(user) =>
          if !ValidCitaBody(body) then resp == Failure(400, MsgMissing) && citas == old(citas)
          else resp == Success(200, NewCita(user.sub, body, nowMs)) && citas == old(citas) + [NewCita(user.sub, body, nowMs)]
    {
      var gate := Authenticate(header, decode, nowSec);
      if gate.Rejected? {
        return Failure(401, gate.message);
      }
      if !Truthy(body.medicoId) || !Truthy(body.fechaHora) {
        return Failure(400, MsgMissing);
      }
      var cita := NewCita(gate.user.sub, body, nowMs);
      citas := citas + [cita];
      resp := Success(200, cita);
    }

    /** `GET /citas` with header `Authorization: header`. */
    method List(header: Option<string>, nowSec: int) returns (resp: Response<seq<Cita>>)
      ensures match Authenticate(header, decode, nowSec)
        case Rejected(m) => resp == Failure(401, m)
        case Admitted(user) => resp == Success(200, Mine(citas, user.sub))
    {
      var gate := Authenticate(header, decode, nowSec);
      if gate.Rejected? {
        return Failure(401, gate.message);
      }
      resp := Success(200, Mine(citas, gate.user.sub));
    }
  }
}
