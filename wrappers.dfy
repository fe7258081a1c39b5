/** Optional values and success-or-failure outcomes, used for Kotlin's nullable
    types and for the exceptions the application catches. */
module Wrappers {

  datatype Option<+T> = None | Some(value: T)

  datatype Result<+T, +E> = Success(value: T) | Failure(error: E)

  /** An exception message as Kotlin sees it: `e.message` may be null. */
  type Message = Option<string>

  /** How a string template such as `"${e.message}"` renders a nullable message. */
  function MessageText(m: Message): (t: string)
    ensures m.Some? ==> t == m.value
    ensures m.None? ==> t == "null"
  {
    match m
    case Some(s) => s
    case None => "null"
  }
}
