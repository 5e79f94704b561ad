/** Error kinds of the event store, one per exception the core raises, and the
    Option/Result/Outcome wrappers the model uses instead of null and exceptions. */
module Errors {

  /** A nullable value: `None` stands for C# `null`. */
  datatype Option<+T> = None | Some(value: T)

  /** The exceptions raised by the engine, the provider and the backend calls they make.
      Only the kind is kept, and for a version mismatch its `ExpectedVersion` field. */
  datatype Error =
    | ObjectDisposed                       // ObjectDisposedException from CheckSession
    | NotOpen                              // StoreNotOpenException
    | SessionExpired                       // StoreSessionExpiredException
    | InvalidSession                       // InvalidStoreSessionException
    | OpenFailed                           // OpenStoreFailedException
    | VersionMismatch(expectedVersion: int)  // StoreVersionMismatchException
    | ArgumentError                        // ArgumentException (chunk size)
    | ArgumentNull                         // ArgumentNullException
    | SettingsUndefined                    // SettingsException from ThrowIfUndefined
    | EmptyIndex                           // InvalidOperationException: Max() of an empty index
    | DuplicateKey                         // the backend refuses Add of a key that exists

  /** The value of an operation that returns something, or the error it raised. */
  datatype Result<+T> = Ok(value: T) | Err(error: Error)

  /** The completion of an operation that returns nothing. */
  datatype Outcome = Pass | Fail(error: Error)

  /** An operation behind a guard: the guard's error when it fails, `r` otherwise. */
  function Guarded<T>(guard: Outcome, r: Result<T>): Result<T>
  {
    if guard.Fail? then Err(guard.error) else r
  }
}
