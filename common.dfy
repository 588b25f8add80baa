/** Types shared by every module of the session registry model. */
module Common {

  /** An octet of a Node.js Buffer. */
  type byte = x: int | 0 <= x < 256

  type Bytes = seq<byte>

  /** A reading of the millisecond clock (`+(new Date())`); always after the epoch. */
  type Timestamp = x: int | x > 0 witness 1

  /** The one-way hash the code asks for as `crypto.createHash('sha256')`,
      left uninterpreted: any total function on byte strings. */
  type Hash = Bytes -> Bytes

  datatype Option<+T> = None | Some(value: T)

  datatype Result<+T, +E> = Ok(value: T) | Err(error: E)

  datatype Outcome<+E> = Pass | Fail(error: E)

  /** The failures the registry and the API report through their callbacks. */
  datatype Error =
    | NotFound              // the storage backend's NotFoundError
    | IoFailure             // any other storage failure
    | UnknownHashAlgorithm  // `crypto.createHash` throws on the stored algorithm name
    | MalformedToken        // `decodeToken` throws on a token with fewer than three parts
}
