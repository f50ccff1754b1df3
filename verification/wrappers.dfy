/** Option, Result and the tri-state Patch used by the update requests. */
module Wrappers {

  /** A value that may be absent; stands for a nullable Java reference. */
  datatype Option<+T> = None | Some(value: T)

  /** The outcome of a service call: a value, or the failure it raised. */
  datatype Result<+T, +E> = Ok(value: T) | Err(error: E) {

    predicate IsFailure() {
      Err?
    }

    function PropagateFailure<U>(): Result<U, E>
      requires Err?
    {
      Err(error)
    }

    function Extract(): T
      requires Ok?
    {
      value
    }
  }

  /** One field of an update request.
      `Absent`: the client did not send the key (the DTO field is a Java null);
      `Null`: the key was sent with JSON null (`JsonNullable.of(null)`);
      `Value(v)`: the key was sent with a value (`JsonNullable.of(v)`). */
  datatype Patch<+T> = Absent | Null | Value(value: T) {

    /** The content of a sent field, as the nullable value `JsonNullable.get()` returns. */
    function Sent(): (r: Option<T>)
      requires !Absent?
      ensures r.None? <==> Null?
      ensures Value? ==> r == Some(value)
    {
      if Null? then None else Some(value)
    }

    /** The value a nullable entity field holds after the patch: unsent keeps `current`,
        null clears it, a value replaces it. */
    function ApplyTo(current: Option<T>): (r: Option<T>)
      ensures Absent? ==> r == current
      ensures Null? ==> r.None?
      ensures Value? ==> r == Some(value)
    {
      match this
      case Absent => current
      case Null => None
      case Value(v) => Some(v)
    }
  }
}
