/**
 Values shared by every part of the model: optional values, JSON field
 values as the Python dictionaries expose them, the "N/A" sentinel, and the
 reason a paginated walk stopped.
 */
module Values {

  datatype Option<+T> = None | Some(value: T)

  /** The placeholder written for every unresolved or private field. */
  const NA: string := "N/A"

  /** The HTTP status every walk treats as success. */
  const StatusOk: int := 200

  /**
   A string-valued field of a decoded JSON object. `dict.get` cannot tell
   `Missing` from `Null` (both read as `None`), but `dict.get(k, d)` can:
   it returns `d` only when the key is missing.
   */
  datatype Field = Missing | Null | Str(text: string)

  /** Python truthiness of a string-valued field: present, not null, not empty. */
  predicate Truthy(f: Field) {
    f.Str? && f.text != ""
  }

  /** The idiom `value or 'N/A'`: a falsy value is replaced by the sentinel. */
  function OrNA(f: Field): (s: string)
    ensures s != ""
    ensures Truthy(f) ==> s == f.text
    ensures !Truthy(f) ==> s == NA
  {
    if Truthy(f) then f.text else NA
  }

  /** Why a paginated walk stopped asking for pages. */
  datatype Stop =
    | LastPage             // the last response was a 200 that asked for no further page
    | HttpError(status: int)  // the last response was not a 200
    | OutOfResponses       // the walk would have asked again, but the modelled upstream has no more responses
}
