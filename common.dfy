/** Values shared by every service: the typed outcomes of the services'
    exceptions, and PHP's `empty()` test as the services apply it. */
module Common {

  datatype Option<+T> = None | Some(value: T)

  /** The three exception classes the services throw, plus the storage
      failure the database raises when an insert breaks a unique index. An
      invalid argument carries the name its message gives, which tells the
      services' checks apart. */
  datatype Error =
    | InvalidArgument(parameter: string)  // InvalidArgumentException naming the missing parameter
    | LinkNotFound      // App\Services\Exceptions\LinkNotFoundException
    | InvalidToken      // Lexik InvalidTokenException: no token in the storage
    | StorageFailure    // the flush fails (unique index violated)

  /** The value a service call returns, or the exception it throws. */
  datatype Result<+T> = Ok(value: T) | Err(error: Error)

  /** The outcome of a service call that returns nothing (`void`): it
      completes or throws. */
  datatype Outcome = Done | Fail(error: Error)

  /** PHP `empty($s)` on a string: true for "" and for "0". */
  predicate EmptyString(s: string)
  {
    s == "" || s == "0"
  }

  /** PHP `empty($n)` on an int: true only for 0. */
  predicate EmptyInt(n: int)
  {
    n == 0
  }

  /** PHP `empty($x)` on a value that may be unset (null counts as empty). */
  predicate EmptyOptString(o: Option<string>)
  {
    o.None? || EmptyString(o.value)
  }
}
