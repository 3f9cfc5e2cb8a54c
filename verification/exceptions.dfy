/** The exceptions the modelled code throws, and `GlobalExceptionHandler`, which
    turns the ones reaching a controller boundary into HTTP responses. */
module Exceptions {

  import Json

  /** One entry of a `BindingResult`: the field and its default message. */
  datatype FieldError = FieldError(field: string, message: string)

  /** Why the JWT library refused to sign or parse a token: the text is not a
      token, its signature is not the verifying key's, or the secret is too
      short to make an HMAC-SHA256 key at all. */
  datatype JwtFailure = MalformedToken | SignatureMismatch | WeakKey

  datatype Exception =
    /** The application's own `ValidationException` */
    | ValidationException(message: string)
    /** Bean Validation failure on a `@Valid` request body */
    | MethodArgumentNotValid(fieldErrors: seq<FieldError>)
    | NullPointerException
    | UsernameNotFoundException(message: string)
    /** A query declared to return at most one row matched several */
    | IncorrectResultSize(found: nat)
    | JwtException(failure: JwtFailure)
    | BadCredentialsException
    /** The id generator has no unused id left */
    | IdsExhausted

  const BadRequest := 400
  const InternalServerError := 500

  datatype Response = Response(status: int, body: map<string, Json.Value>)

  /** Builds the `fieldErrors` map in the order the binding result lists the
      errors; a later error on the same field replaces the earlier one. */
  method CollectFieldErrors(errors: seq<FieldError>) returns (m: map<string, string>)
    ensures forall f :: f in m <==> exists i :: 0 <= i < |errors| && errors[i].field == f
    ensures forall f :: f in m ==>
      exists i :: 0 <= i < |errors| && errors[i] == FieldError(f, m[f])
        && forall j :: i < j < |errors| ==> errors[j].field != f
  {
    m := map[];
    var k := 0;
    while k < |errors|
      invariant k <= |errors|
      invariant forall f :: f in m <==> exists i :: 0 <= i < k && errors[i].field == f
      invariant forall f :: f in m ==>
        exists i :: 0 <= i < k && errors[i] == FieldError(f, m[f])
          && forall j :: i < j < k ==> errors[j].field != f
    {
      m := m[errors[k].field := errors[k].message];
      k := k + 1;
    }
  }

  function ValidationBody(message: string): map<string, Json.Value>
  {
    map[
      "error" := Json.JString("Validation Error"),
      "message" := Json.JString(message),
      "status" := Json.JNumber(BadRequest)
    ]
  }

  /** The advice's three handlers; every exception other than the two
      validation kinds is a `RuntimeException` and gets the generic 500. */
  method Handle(e: Exception) returns (r: Response)
    ensures {"error", "message", "status"} <= r.body.Keys
    ensures r.body["status"] == Json.JNumber(r.status)
    ensures r.status == BadRequest <==> e.ValidationException? || e.MethodArgumentNotValid?
    ensures r.status == InternalServerError <==> !(e.ValidationException? || e.MethodArgumentNotValid?)
    ensures e.ValidationException? ==> r.body == ValidationBody(e.message)
    ensures e.MethodArgumentNotValid? ==>
      && r.body.Keys == {"error", "message", "status", "fieldErrors"}
      && r.body["message"] == Json.JString("Invalid input parameters")
      && r.body["fieldErrors"].JObject?
      && (forall f :: f in r.body["fieldErrors"].fields <==>
            exists i :: 0 <= i < |e.fieldErrors| && e.fieldErrors[i].field == f)
      && (forall f :: f in r.body["fieldErrors"].fields ==>
            exists i :: 0 <= i < |e.fieldErrors| && e.fieldErrors[i].field == f
              && r.body["fieldErrors"].fields[f] == Json.JString(e.fieldErrors[i].message)
              && forall j :: i < j < |e.fieldErrors| ==> e.fieldErrors[j].field != f)
    ensures !(e.ValidationException? || e.MethodArgumentNotValid?) ==>
      && r.body["message"] == Json.JString("An unexpected error occurred")
      && r.body["error"] == Json.JString("Internal Server Error")
  {
    match e {
      case ValidationException(message) =>
        r := Response(BadRequest, ValidationBody(message));
      case MethodArgumentNotValid(errors) =>
        var fields := CollectFieldErrors(errors);
        var json := map f | f in fields :: Json.JString(fields[f]);
        r := Response(BadRequest, ValidationBody("Invalid input parameters")["fieldErrors" := Json.JObject(json)]);
      case _ =>
        r := Response(InternalServerError, map[
          "error" := Json.JString("Internal Server Error"),
          "message" := Json.JString("An unexpected error occurred"),
          "status" := Json.JNumber(InternalServerError)
        ]);
    }
  }
}
