/** Failure-compatible wrappers used throughout the model. */
module Wrappers {

  datatype Option<+T> = None | Some(value: T)

  /** A value or the exception that the Python code would raise instead. */
  datatype Result<+T, +E> = Success(value: T) | Failure(error: E) {
    predicate IsFailure() { Failure? }

    function PropagateFailure<U>(): Result<U, E>
      requires Failure?
    {
      Failure(error)
    }

    function Extract(): T
      requires Success?
    {
      value
    }
  }

  /** The result of a Python function that returns None or raises. */
  datatype Outcome<+E> = Pass | Fail(error: E) {
    predicate IsFailure() { Fail? }

    function PropagateFailure(): Outcome<E>
      requires Fail?
    {
      this
    }
  }
}

/** Octets as the Python `bytes` type holds them. */
module Binary {
  newtype byte = b: int | 0 <= b < 256

  type Bytes = seq<byte>
}

/**
 * The exceptions that cross the envelope-encryption core. Python signals
 * each of them by raising; the model returns them as data.
 */
module Exceptions {

  datatype Error =
    | HttpError(status: int)    // requests.HTTPError raised by raise_for_status() on a Vault reply
    | InvalidKeyLength          // ValueError from AESGCM(key): the key is not 128, 192 or 256 bits
    | InvalidNonceLength        // ValueError from AESGCM.decrypt: the nonce is shorter than 8 bytes
    | InvalidTag                // cryptography.exceptions.InvalidTag: authentication failed
    | Base64Error               // binascii.Error from base64.b64decode
    | UnicodeDecodeError        // bytes.decode("utf-8") met a malformed sequence
    | RowUnpackError            // TypeError: unpacking the None that fetchone() returns for no row
    | IntegrityError            // mysql.connector IntegrityError: the statement would break the foreign key
    | DataError                 // mysql.connector DataError: a value is too long for its column (strict mode)
    | HttpException(code: int)  // fastapi.HTTPException raised by an endpoint
    | NotReady(message: string) // RuntimeError raised when a startup wait gives up

  /** The statuses for which requests' raise_for_status() raises. */
  type ErrorStatus = s: int | 400 <= s < 600 witness 500
}
