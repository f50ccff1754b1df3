/** The failures the services raise, and the exception class each one is thrown as. */
module Failures {
  import opened Wrappers

  datatype EntityKind = UserKind | TaskKind | StatusKind | LabelKind

  datatype UniqueField = EmailField | NameField | SlugField

  datatype Failure =
    /** "Task status is required": a create request without a usable status. */
    | StatusRequired
    /** "<entity> not found: <id>". */
    | NotFound(kind: EntityKind, id: int)
    /** "Task status not found: <slug>"; `None` is a slug sent as null. */
    | SlugNotFound(slug: Option<string>)
    /** "Label not found: ..." naming the requested ids that do not exist. */
    | LabelsNotFound(missing: set<int>)
    /** "<entity> with <field> <value> already exists". */
    | Duplicate(kind: EntityKind, field: UniqueField, value: string)
    /** "Cannot delete <entity> with associated tasks". */
    | InUse(kind: EntityKind)
    /** Bean validation refused the entity when it was saved. */
    | ConstraintViolation(kind: EntityKind)
    /** A null reached code that dereferences it (`null.equals`, iterating a null set,
        encoding a null password). */
    | NullValue(nullField: string)
    /** A lookup by a unique column found more than one row. */
    | AmbiguousResult
    /** A `@PreAuthorize` rule refused the caller; `reason` is the exception's message. */
    | AccessDenied(reason: string)
    /** `PageRequest.of` refused a page index below zero or a page size below one. */
    | InvalidPageRequest
    /** The repository refused a page whose offset does not fit in a Java `int`. */
    | OffsetTooLarge
    /** The database refused to delete a row that another row still references. */
    | ReferencedRow(kind: EntityKind)

  /** The Java exception class a failure is thrown as. */
  datatype ExceptionClass = ResourceNotFound | ResourceAlreadyExists | Denied | Unclassified

  function ClassOf(f: Failure): (c: ExceptionClass)
    ensures c == ResourceNotFound <==> (f.StatusRequired? || f.NotFound? || f.SlugNotFound? || f.LabelsNotFound?)
    ensures c == ResourceAlreadyExists <==> (f.Duplicate? || f.InUse?)
    ensures c == Denied <==> f.AccessDenied?
  {
    match f
    case StatusRequired | NotFound(_, _) | SlugNotFound(_) | LabelsNotFound(_) => ResourceNotFound
    case Duplicate(_, _, _) | InUse(_) => ResourceAlreadyExists
    case AccessDenied(_) => Denied
    case _ => Unclassified
  }

  /** The uniqueness check an update performs on one unique column before the mapper copies the
      field: an unsent field keeps `current`; a field sent as null fails on `newValue.equals`;
      a new value fails when another row already holds it (`taken`). Sending the current value
      back is always allowed. */
  function CheckUnique(kind: EntityKind, field: UniqueField, fieldName: string, p: Patch<string>,
                       current: string, taken: bool): (r: Result<string, Failure>)
    ensures p.Absent? ==> r == Ok(current)
    ensures p.Null? ==> r == Err(NullValue(fieldName))
    ensures p.Value? ==> (r.Ok? <==> p.value == current || !taken)
    ensures p.Value? && r.Ok? ==> r.value == p.value
    ensures p.Value? && r.Err? ==> r.error == Duplicate(kind, field, p.value)
  {
    match p
    case Absent => Ok(current)
    case Null => Err(NullValue(fieldName))
    case Value(v) => if v != current && taken then Err(Duplicate(kind, field, v)) else Ok(v)
  }
}
