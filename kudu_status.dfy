/**
 * The local result type that the wire codecs translate to and from: a status
 * is either OK or an error carrying a code, a message and an optional platform
 * error number (-1 when there is none).  Operations that can fail return a
 * Result, which carries either a value or a non-OK status.
 */
module KuduStatus {

  /** Codes a non-OK status can carry.  `Other` stands for any further code of
      the local status type that the status codec has no wire code for. */
  datatype Code =
    | NotFound
    | Corruption
    | NotSupported
    | InvalidArgument
    | IOError
    | AlreadyPresent
    | RuntimeError
    | NetworkError
    | Other(name: string)

  /** The OK status carries no message and no error number. */
  datatype Status = Ok | Error(code: Code, message: string, posixCode: int)

  /** Either a value or the non-OK status that explains why there is none. */
  datatype Result<T> = Success(value: T) | Failure(status: Status)

  /** The human-readable name of a code, as prepended to messages sent with an
      unknown wire code. */
  function CodeAsString(c: Code): string
  {
    match c
    case NotFound => "Not found"
    case Corruption => "Corruption"
    case NotSupported => "Not implemented"
    case InvalidArgument => "Invalid argument"
    case IOError => "IO error"
    case AlreadyPresent => "Already present"
    case RuntimeError => "Runtime error"
    case NetworkError => "Network error"
    case Other(name) => name
  }

  /** The error constructors take a message and a second message; the second,
      when non-empty, is joined to the first with ": ". */
  function MakeStatus(code: Code, msg: string, msg2: string, posixCode: int): (s: Status)
    ensures s.Error? && s.code == code && s.posixCode == posixCode
    ensures msg2 == [] ==> s.message == msg
    ensures msg2 != [] ==> s.message == msg + ": " + msg2
  {
    Error(code, if msg2 == [] then msg else msg + ": " + msg2, posixCode)
  }

  /** Decimal rendering of a natural number, used where the source formats
      sizes and indices into error messages. */
  function NatToString(n: nat): (s: string)
    ensures |s| > 0
    decreases n
  {
    var digit := "0123456789"[n % 10];
    if n < 10 then [digit] else NatToString(n / 10) + [digit]
  }
}
