/** Result types and the byte type shared by every module. */
module Wrappers {

  type byte = x: int | 0 <= x < 256
  type bytes = seq<byte>

  datatype Option<+T> = None | Some(value: T) {
    predicate IsFailure() { None? }

    function PropagateFailure<U>(): Option<U>
      requires None?
    {
      None
    }

    function Extract(): T
      requires Some?
    {
      value
    }

    /** `ok_or_else` with the given error. */
    function OkOr(error: AppError): Result<T> {
      match this
      case Some(v) => Ok(v)
      case None => Err(error)
    }
  }

  /** The error kinds of `src/error.rs`; message texts are not modelled. */
  datatype AppError = Config | BadRequest | NotFound | CryptoError | Database | Upstream

  datatype Result<+T> = Ok(value: T) | Err(error: AppError) {
    predicate IsFailure() { Err? }

    function PropagateFailure<U>(): Result<U>
      requires Err?
    {
      Err(error)
    }

    function Extract(): T
      requires Ok?
    {
      value
    }
  }

  lemma Associates<T>(a: seq<T>, b: seq<T>, c: seq<T>)
    ensures (a + b) + c == a + (b + c)
  {
  }

  lemma TakeNext<T>(s: seq<T>, i: nat)
    requires i < |s|
    ensures s[..i + 1] == s[..i] + [s[i]]
  {
  }
}
