/** Small value wrappers shared by the handlers and the pages: an optional
    value standing for JavaScript's `null`/`undefined`, a result carrying an
    error message, and JavaScript truthiness of the values the app tests. */
module Common {

  /** `None` stands for a missing JSON field, `null` or `undefined`. */
  datatype Option<+T> = None | Some(value: T)

  /** A value, or the message of the error that replaced it. */
  datatype Result<+T> = Success(value: T) | Failure(error: string)

  /** How an awaited promise settled: with a value, or rejected with the
      message of the error it threw (`err.message`). */
  datatype Settled<+T> = Resolved(value: T) | Rejected(message: string)

  /** JavaScript truthiness of an optional string: present and not "". */
  predicate Truthy(s: Option<string>) {
    s.Some? && s.value != ""
  }

  /** JavaScript truthiness of an optional number: present and not 0. */
  predicate TruthyNumber(n: Option<int>) {
    n.Some? && n.value != 0
  }

  function Min(a: int, b: int): int {
    if a <= b then a else b
  }
}
