/** Shared value types: optional values, the Python exceptions the core raises
    or lets through, results carrying one of them, and opaque JSON bodies. */
module Base {

  datatype Option<+T> = None | Some(value: T)

  /** A Python exception, by class and the text `str(e)` would give. */
  datatype Exception =
    | ValueError(message: string)
    | KeyError(key: string)
    | IndexError(message: string)
    | AttributeError(name: string)
    | ValidationError(message: string)
    | IntegrityError(message: string)
    | OverflowError(message: string)
    | PlainException(message: string)  // an instance of the base class `Exception`

  /** Either a value or the exception that was raised instead. */
  datatype Result<+T> = Ok(value: T) | Err(error: Exception) {
    predicate IsFailure() { Err? }
    function PropagateFailure<U>(): Result<U>
      requires Err?
    {
      Err(error)
    }
    function Extract(): T
      requires Ok?
    {
      value
    }
  }

  /** A JSON-like value: request and response bodies are carried, never inspected. */
  datatype Json =
    | JNull
    | JBool(b: bool)
    | JNumber(n: int)
    | JString(s: string)
    | JArray(items: seq<Json>)
    | JObject(members: map<string, Json>)
}
