/** Optional values and the outcome of a call that may throw, shared by every module. */
module Wrappers {

  /** A value that may be absent: a C# null reference or a nullable value type. */
  datatype Option<+T> = None | Some(value: T) {
    function GetOr(default: T): T {
      match this
      case Some(v) => v
      case None => default
    }
  }

  /** The .NET exception classes the controllers catch separately; every other class is OtherError. */
  datatype ExceptionKind = HttpRequestError | TaskCanceled | OtherError

  /** A thrown exception: its class and its Message text. */
  datatype Exception = Exception(kind: ExceptionKind, message: string)

  /** The result of an awaited call: the value it returned, or the exception it threw. */
  datatype Call<+T> = Returned(value: T) | Threw(ex: Exception)
}
