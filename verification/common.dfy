/** Vocabulary shared by every part of the recipe service: optional values,
    the error record the API throws, and results that carry one or the other. */
module Common {

  /** A value that may be absent. JavaScript's `null` and `undefined` both map to
      `None` wherever the code treats them alike (`??`, `!x`). */
  datatype Option<+T> = None | Some(value: T) {

    /** The `x ?? fallback` of the source. */
    function GetOr(fallback: T): T {
      if Some? then value else fallback
    }
  }

  /** A field of a partial-update payload: absent (`undefined`, leave the column
      alone), `null` (clear it), or a value (set it). */
  datatype Field<+T> = Absent | Null | Present(value: T) {

    /** The column's value after the update. */
    function Over(current: Option<T>): Option<T> {
      match this
      case Absent => current
      case Null => None
      case Present(v) => Some(v)
    }
  }

  /** An optional string that JavaScript treats as true (`if (s)`): present
      and non-empty; undefined, null and "" are all falsy. */
  predicate Truthy(s: Option<string>) {
    s.Some? && s.value != ""
  }

  /** Identifiers (UUID text in the real system) and timestamps (an abstract,
      totally ordered clock value). */
  type Id = string
  type Time = int

  /** The `details` member of an ApiError (api/src/lib/errors.ts). */
  datatype Details =
    | NoDetails
    | Issue(field: string, message: string)   // one validation issue
    | UpstreamStatus(status: int)             // status of a failed webhook call

  /** Constraint failures the relational store raises for a statement. */
  datatype Violation =
    | UniqueViolation(index: string)
    | ForeignKeyViolation(constraint: string)
    | NotNullViolation(column: string)
    | InvalidPaging                           // OFFSET < 0 or FETCH NEXT < 1

  /** Everything an operation can throw: the service's own ApiError, an error
      raised by the SQL driver, or any other failure of a collaborator. */
  datatype Error =
    | ApiError(status: int, message: string, code: string, details: Details)
    | SqlError(violation: Violation)
    | OtherError(message: string)

  /** The outcome of an operation that can throw. */
  datatype Result<+T> = Ok(value: T) | Err(error: Error) {

    predicate IsFailure() {
      Err?
    }

    function PropagateFailure<U>(): Result<U>
      requires Err?
    {
      Err(error)
    }

    function Extract(): T
      requires Ok?
    {
      value
    }
  }

  /** An ApiError whose details are empty, as `new ApiError(status, message, code)` builds it. */
  function Api(status: int, message: string, code: string): Error {
    ApiError(status, message, code, NoDetails)
  }

  // uuidv4() is modelled as "an id that no stored row or document carries yet";
  // collisions of real UUIDs are not modelled.

  function MaxLength(ids: seq<Id>): (m: nat)
    ensures forall k :: 0 <= k < |ids| ==> |ids[k]| <= m
  {
    if |ids| == 0 then 0
    else
      var rest := MaxLength(ids[1..]);
      assert forall k :: 1 <= k < |ids| ==> ids[k] == ids[1..][k - 1];
      if |ids[0]| > rest then |ids[0]| else rest
  }

  /** An id that differs from every id in `used` (it is longer than all of them). */
  function FreshId(used: seq<Id>): (id: Id)
    ensures id !in used
  {
    seq(MaxLength(used) + 1, _ => 'x')
  }
}
