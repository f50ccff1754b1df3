/** `GlobalExceptionHandler`: which HTTP status and body each exception becomes. Reporting to
    Sentry is a side effect and is not modelled. */
module ExceptionHandler {
  import opened Failures

  /** A bean-validation error on one request field. */
  datatype FieldError = FieldError(field: string, message: string)

  /** What reaches the handler: a failure from the services or the security rules, the
      controller's `@Valid` check, or a refused login. */
  datatype Thrown =
    | Raised(failure: Failure)
    | ArgumentNotValid(errors: seq<FieldError>)
    | BadCredentials

  /** `ExceptionMessage` stands for the exception's own message text. */
  datatype Body = ExceptionMessage | Text(text: string) | Fields(errors: map<string, string>)

  datatype Response = Response(status: int, body: Body)

  const GenericMessage := "Something went wrong. Please try again later."

  /** The field map the validation handler builds by `put` in error order, as a reference:
      each error overwrites any earlier one for the same field. */
  function FieldMap(errors: seq<FieldError>): map<string, string>
    decreases |errors|
  {
    if |errors| == 0 then map[]
    else
      var last := errors[|errors| - 1];
      FieldMap(errors[..|errors| - 1])[last.field := last.message]
  }

  /** The map has one entry per field that has an error. */
  lemma {:induction false} FieldMapKeys(errors: seq<FieldError>)
    ensures FieldMap(errors).Keys == set i | 0 <= i < |errors| :: errors[i].field
    decreases |errors|
  {
    if |errors| > 0 {
      var n := |errors| - 1;
      var init := errors[..n];
      FieldMapKeys(init);
      var fs := set i | 0 <= i < |errors| :: errors[i].field;
      var fi := set i | 0 <= i < |init| :: init[i].field;
      forall f | f in fs
        ensures f in fi || f == errors[n].field
      {
        var i :| 0 <= i < |errors| && errors[i].field == f;
        if i < n {
          assert init[i].field == f;
        }
      }
      forall f | f in fi
        ensures f in fs
      {
        var i :| 0 <= i < |init| && init[i].field == f;
        assert errors[i].field == f;
      }
      assert fs == fi + {errors[n].field};
    }
  }

  /** Each field's entry is the message of the last error for that field. */
  lemma {:induction false} FieldMapLastWins(errors: seq<FieldError>, i: nat)
    requires i < |errors|
    requires forall j :: i < j < |errors| ==> errors[j].field != errors[i].field
    ensures errors[i].field in FieldMap(errors) && FieldMap(errors)[errors[i].field] == errors[i].message
    decreases |errors|
  {
    var n := |errors| - 1;
    if i < n {
      var init := errors[..n];
      assert init[i] == errors[i];
      assert forall j :: i < j < |init| ==> init[j] == errors[j];
      FieldMapLastWins(init, i);
    }
  }

  /** The validation handler's loop: `errors.put(field, message)` for each error in turn. */
  method CollectFieldErrors(errors: seq<FieldError>) returns (m: map<string, string>)
    ensures m == FieldMap(errors)
    ensures m.Keys == set i | 0 <= i < |errors| :: errors[i].field
    ensures forall i :: 0 <= i < |errors| && (forall j :: i < j < |errors| ==> errors[j].field != errors[i].field) ==>
      m[errors[i].field] == errors[i].message
  {
    m := map[];
    var k := 0;
    while k < |errors|
      invariant 0 <= k <= |errors|
      invariant m == FieldMap(errors[..k])
    {
      assert errors[..k + 1][..k] == errors[..k];
      m := m[errors[k].field := errors[k].message];
      k := k + 1;
    }
    assert errors[..|errors|] == errors;
    FieldMapKeys(errors);
    forall i | 0 <= i < |errors| && (forall j :: i < j < |errors| ==> errors[j].field != errors[i].field)
      ensures m[errors[i].field] == errors[i].message
    {
      FieldMapLastWins(errors, i);
    }
  }

  /** The handlers: not found is 404 with the message; validation is 400 with the field map;
      already exists (including "in use") is 409 with the message; access denied is 403 with
      the message behind a prefix; bad credentials is 401 with a fixed text; anything else is
      500 with a fixed text. */
  method Handle(e: Thrown) returns (r: Response)
    ensures e.Raised? && ClassOf(e.failure) == ResourceNotFound ==> r == Response(404, ExceptionMessage)
    ensures e.Raised? && ClassOf(e.failure) == ResourceAlreadyExists ==> r == Response(409, ExceptionMessage)
    ensures e.Raised? && e.failure.AccessDenied? ==> r == Response(403, Text("Access denied: " + e.failure.reason))
    ensures e.Raised? && ClassOf(e.failure) == Unclassified ==> r == Response(500, Text(GenericMessage))
    ensures e.ArgumentNotValid? ==> r.status == 400 && r.body == Fields(FieldMap(e.errors))
    ensures e.BadCredentials? ==> r == Response(401, Text("Invalid credentials"))
  {
    match e
    case Raised(f) =>
      match ClassOf(f) {
        case ResourceNotFound => r := Response(404, ExceptionMessage);
        case ResourceAlreadyExists => r := Response(409, ExceptionMessage);
        case Denied => r := Response(403, Text("Access denied: " + f.reason));
        case Unclassified => r := Response(500, Text(GenericMessage));
      }
    case ArgumentNotValid(errors) =>
      var m := CollectFieldErrors(errors);
      r := Response(400, Fields(m));
    case BadCredentials =>
      r := Response(401, Text("Invalid credentials"));
  }

  /** The status of a service failure, as a function. */
  function StatusOf(f: Failure): int {
    match ClassOf(f)
    case ResourceNotFound => 404
    case ResourceAlreadyExists => 409
    case Denied => 403
    case Unclassified => 500
  }

  /** The outcomes the services signal on purpose are client errors; the failures they do not
      anticipate (a null dereference, a refused save, an ambiguous lookup, a bad page request)
      all surface as 500. */
  lemma StatusesOfServiceFailures(f: Failure)
    ensures StatusOf(f) == 404 <==> f.StatusRequired? || f.NotFound? || f.SlugNotFound? || f.LabelsNotFound?
    ensures StatusOf(f) == 409 <==> f.Duplicate? || f.InUse?
    ensures StatusOf(f) == 403 <==> f.AccessDenied?
    ensures StatusOf(f) == 500 <==> (|| f.NullValue? || f.ConstraintViolation? || f.AmbiguousResult?
                                    || f.InvalidPageRequest? || f.OffsetTooLarge? || f.ReferencedRow?)
  {
  }

  /** Two errors on one field leave only the later message. */
  lemma LaterErrorOverwrites(field: string, first: string, second: string)
    ensures FieldMap([FieldError(field, first), FieldError(field, second)]) == map[field := second]
  {
    assert [FieldError(field, first), FieldError(field, second)][..1] == [FieldError(field, first)];
    assert [FieldError(field, first)][..0] == [];
    assert FieldMap([FieldError(field, first)]) == map[field := first];
  }
}
