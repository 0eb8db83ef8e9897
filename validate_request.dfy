/**
  `validateRequest` (backend/src/middleware/validateRequest.js): turns the
  errors the validation chains collected into either `next()` or a 400
  answer.
*/
module ValidateRequest {
  import opened Wrappers
  import opened Http

  /** Where a checked value came from: `req.body`, `req.query` or `req.params`. */
  datatype Location = Body | Query | Params

  /** One entry of `validationResult(req).array()`. */
  datatype ValidationError = ValidationError(location: Location, param: string, msg: string)

  const InvalidQuery := "Invalid query parameters"
  const ValidationFailed := "Validation failed"

  /** `errors.some((err) => err.location === "query")`. */
  function HasQueryError(errors: seq<ValidationError>): (b: bool)
    ensures b <==> exists i :: 0 <= i < |errors| && errors[i].location == Query
  {
    if errors == [] then false
    else errors[0].location == Query || HasQueryError(errors[1..])
  }

  /** `errors.map((err) => ({ field: err.param, message: err.msg }))`. */
  function FieldErrorsOf(errors: seq<ValidationError>): (r: seq<FieldError>)
    ensures |r| == |errors|
    ensures forall i :: 0 <= i < |errors| ==> r[i] == FieldError(errors[i].param, errors[i].msg)
  {
    if errors == [] then []
    else [FieldError(errors[0].param, errors[0].msg)] + FieldErrorsOf(errors[1..])
  }

  /**
    `validateRequest`: no errors lets the request through; any error in the
    query string gets a terse 400 with no details; otherwise a 400 lists
    every error as field and message, in the order they were found.
  */
  function Validate(errors: seq<ValidationError>): (o: Outcome)
    ensures o.Next? <==> errors == []
    ensures o.Next? || o.Respond?
    ensures HasQueryError(errors) ==> o == Respond(Failure(400, InvalidQuery))
    ensures errors != [] && !HasQueryError(errors) ==>
      o == Respond(Response(400, NoCookie, false, Some(ValidationFailed), FieldErrors(FieldErrorsOf(errors))))
  {
    if errors != [] then
      if HasQueryError(errors) then Respond(Failure(400, InvalidQuery))
      else Respond(Response(400, NoCookie, false, Some(ValidationFailed), FieldErrors(FieldErrorsOf(errors))))
    else Next
  }

  /** One query error anywhere decides the answer, whatever the other errors are. */
  lemma QueryErrorDominates(before: seq<ValidationError>, e: ValidationError, after: seq<ValidationError>)
    requires e.location == Query
    ensures Validate(before + [e] + after) == Respond(Failure(400, InvalidQuery))
  {
    assert (before + [e] + after)[|before|] == e;
  }

  /** The detailed list keeps the errors' order: the errors of two groups are listed group by group. */
  lemma {:induction false} FieldErrorsConcat(a: seq<ValidationError>, b: seq<ValidationError>)
    ensures FieldErrorsOf(a + b) == FieldErrorsOf(a) + FieldErrorsOf(b)
  {
    if a != [] {
      assert (a + b)[1..] == a[1..] + b;
      FieldErrorsConcat(a[1..], b);
    } else {
      assert a + b == b;
    }
  }
}
