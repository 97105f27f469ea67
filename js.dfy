/** JavaScript values as the services receive them in a parsed JSON request
    body, with the two pieces of JavaScript semantics the handlers rely on:
    truthiness (`!x`, `x || null`) and the decimal rendering of integers
    (`'u' + Date.now()`, `` `c${Date.now()}` ``). */
module Js {

  datatype Option<+T> = None | Some(value: T) {
    /** `x = d` in a destructuring pattern: the default replaces only `undefined`. */
    function GetOr(default: T): T {
      match this
      case Some(v) => v
      case None => default
    }
  }

  /** A JSON value of a request body field. Objects and arrays are not
      modelled; numbers are integers. An absent field (`undefined`) is `None`
      of `Option<Json>`. */
  datatype Json = JNull | JBool(b: bool) | JNum(n: int) | JStr(s: string)

  /** JavaScript truthiness: undefined, null, false, 0 and "" are falsy. */
  predicate Truthy(v: Option<Json>) {
    match v
    case None => false
    case Some(JNull) => false
    case Some(JBool(b)) => b
    case Some(JNum(n)) => n != 0
    case Some(JStr(s)) => s != ""
  }

  /** `v || null`: the value itself when it is truthy, otherwise null. */
  function OrNull(v: Option<Json>): (r: Json)
    ensures Truthy(Some(r)) == Truthy(v)
    ensures Truthy(v) ==> Some(r) == v
    ensures !Truthy(v) ==> r == JNull
  {
    if Truthy(v) then v.value else JNull
  }

  predicate IsDigit(c: char) {
    '0' <= c <= '9'
  }

  predicate AllDigits(s: string) {
    forall i :: 0 <= i < |s| ==> IsDigit(s[i])
  }

  function DigitChar(d: nat): (c: char)
    requires d < 10
    ensures IsDigit(c)
  {
    ('0' as int + d) as char
  }

  function DigitValue(c: char): (d: nat)
    requires IsDigit(c)
    ensures d < 10 && DigitChar(d) == c
  {
    c as int - '0' as int
  }

  /** `String(n)` for a non-negative integer up to 2^53, where a JavaScript
      number is exact: its decimal digits,
      most significant first, without leading zeros. */
  function NatToString(n: nat): (s: string)
    ensures |s| >= 1 && AllDigits(s)
    ensures |s| > 1 ==> s[0] != '0'
  {
    if n < 10 then [DigitChar(n)] else NatToString(n / 10) + [DigitChar(n % 10)]
  }

  /** `String(n)` for an integer: a minus sign in front of negative ones. */
  function IntToString(n: int): (s: string)
    ensures |s| >= 1
    ensures n < 0 <==> s[0] == '-'
  {
    if n < 0 then "-" + NatToString(-n) else NatToString(n)
  }

  /** Reads a string of decimal digits back as a number; the inverse of
      `NatToString`. */
  function ParseNat(s: string): nat
    requires AllDigits(s)
  {
    if s == [] then 0 else 10 * ParseNat(s[..|s| - 1]) + DigitValue(s[|s| - 1])
  }

  lemma {:induction false} ParseNatToString(n: nat)
    ensures ParseNat(NatToString(n)) == n
  {
    var s := NatToString(n);
    if n >= 10 {
      ParseNatToString(n / 10);
      assert s[..|s| - 1] == NatToString(n / 10);
    }
  }

  /** Distinct numbers render as distinct strings. */
  lemma NatToStringInjective(a: nat, b: nat)
    ensures NatToString(a) == NatToString(b) ==> a == b
  {
    ParseNatToString(a);
    ParseNatToString(b);
  }
}

/** The reply a Fastify handler sends: a status code with either the JSON
    body the handler returns or `{ message }` for an error. */
module Http {
  datatype Response<T> = Success(code: nat, body: T) | Failure(code: nat, message: string)
}
