/**
 * StatusCodec: the mapping between a local status and its wire descriptor
 * (a code, an optional message and an optional platform error number).
 */
module StatusCodec {
  import opened KuduStatus

  datatype Option<T> = None | Some(value: T)

  /** Wire status codes.  `Unlisted` stands for an enum value that the decoder's
      switch does not name, which it treats like UNKNOWN_ERROR. */
  datatype ErrorCode =
    | UNKNOWN_ERROR
    | OK
    | NOT_FOUND
    | CORRUPTION
    | NOT_SUPPORTED
    | INVALID_ARGUMENT
    | IO_ERROR
    | ALREADY_PRESENT
    | RUNTIME_ERROR
    | NETWORK_ERROR
    | Unlisted(value: int)

  /** The wire status descriptor; absent optional fields are None. */
  datatype AppStatusPB = AppStatusPB(code: ErrorCode, message: Option<string>, posixCode: Option<int>)

  /** The codes the encoder has a wire code for.  AlreadyPresent is not among
      them, although the decoder understands ALREADY_PRESENT. */
  predicate Recognised(c: Code)
  {
    c in {NotFound, Corruption, NotSupported, InvalidArgument, IOError, RuntimeError, NetworkError}
  }

  /** Posix code sent on the wire: absent when the status carries the sentinel -1. */
  function PosixToPB(posixCode: int): (r: Option<int>)
    ensures r.None? <==> posixCode == -1
    ensures r.Some? ==> r.value == posixCode
  {
    if posixCode != -1 then Some(posixCode) else None
  }

  /** Encodes a status.  OK carries nothing but its code; a recognised code
      carries the message as is; any other code is sent as UNKNOWN_ERROR with
      its name prepended to the message. */
  function StatusToPB(s: Status): (pb: AppStatusPB)
    ensures pb.code == OK <==> s.Ok?
    ensures s.Ok? ==> pb.message.None? && pb.posixCode.None?
    ensures s.Error? ==> pb.message.Some? && pb.posixCode == PosixToPB(s.posixCode)
    ensures s.Error? && Recognised(s.code) ==> pb.message.value == s.message
    ensures s.Error? && Recognised(s.code) ==> pb.code !in {UNKNOWN_ERROR, ALREADY_PRESENT}
    ensures s.Error? && !Recognised(s.code) ==>
              pb.code == UNKNOWN_ERROR && pb.message.value == CodeAsString(s.code) + ": " + s.message
  {
    if s.Ok? then AppStatusPB(OK, None, None)
    else
      var code :=
        match s.code
        case NotFound => NOT_FOUND
        case Corruption => CORRUPTION
        case NotSupported => NOT_SUPPORTED
        case InvalidArgument => INVALID_ARGUMENT
        case IOError => IO_ERROR
        case RuntimeError => RUNTIME_ERROR
        case NetworkError => NETWORK_ERROR
        case _ => UNKNOWN_ERROR;
      var message :=
        if code == UNKNOWN_ERROR then CodeAsString(s.code) + ": " + s.message else s.message;
      AppStatusPB(code, Some(message), PosixToPB(s.posixCode))
  }

  /** The message field as read by the decoder: an absent message reads as "". */
  function MessageOf(pb: AppStatusPB): string
  {
    if pb.message.Some? then pb.message.value else ""
  }

  /** Decodes a wire status.  Never fails: UNKNOWN_ERROR and unlisted codes
      become a RuntimeError wrapping "(unknown error code)" and the message. */
  function StatusFromPB(pb: AppStatusPB): (s: Status)
    ensures s.Ok? <==> pb.code == OK
    ensures s.Error? ==> s.posixCode == (if pb.posixCode.Some? then pb.posixCode.value else -1)
    ensures pb.code !in {OK, UNKNOWN_ERROR} && !pb.code.Unlisted? ==> s.message == MessageOf(pb)
    ensures pb.code == UNKNOWN_ERROR || pb.code.Unlisted? ==>
              s.code == RuntimeError &&
              s.message == "(unknown error code)" + (if MessageOf(pb) == "" then "" else ": " + MessageOf(pb))
  {
    var posixCode := if pb.posixCode.Some? then pb.posixCode.value else -1;
    var message := MessageOf(pb);
    match pb.code
    case OK => Ok
    case NOT_FOUND => MakeStatus(NotFound, message, "", posixCode)
    case CORRUPTION => MakeStatus(Corruption, message, "", posixCode)
    case NOT_SUPPORTED => MakeStatus(NotSupported, message, "", posixCode)
    case INVALID_ARGUMENT => MakeStatus(InvalidArgument, message, "", posixCode)
    case IO_ERROR => MakeStatus(IOError, message, "", posixCode)
    case ALREADY_PRESENT => MakeStatus(AlreadyPresent, message, "", posixCode)
    case RUNTIME_ERROR => MakeStatus(RuntimeError, message, "", posixCode)
    case NETWORK_ERROR => MakeStatus(NetworkError, message, "", posixCode)
    case _ => MakeStatus(RuntimeError, "(unknown error code)", message, posixCode)
  }

  /** OK encodes to the bare OK code and decodes back to OK. */
  lemma OkRoundTrip()
    ensures StatusToPB(Ok) == AppStatusPB(OK, None, None)
    ensures StatusFromPB(StatusToPB(Ok)) == Ok
  {
  }

  /** Every recognised error keeps its code, its message and its posix code
      (present or not) through encode and decode. */
  lemma RecognisedRoundTrip(s: Status)
    requires s.Error? && Recognised(s.code)
    ensures StatusFromPB(StatusToPB(s)) == s
  {
  }

  /** Any other error arrives as a RuntimeError whose message names the original
      code; the posix code still survives. */
  lemma UnrecognisedRoundTrip(s: Status)
    requires s.Error? && !Recognised(s.code)
    ensures StatusFromPB(StatusToPB(s)) ==
              Error(RuntimeError, "(unknown error code): " + CodeAsString(s.code) + ": " + s.message, s.posixCode)
  {
    var pb := StatusToPB(s);
    assert MessageOf(pb) == CodeAsString(s.code) + ": " + s.message;
    assert MessageOf(pb) != "";
  }

  /** As written, an AlreadyPresent status does not survive the round trip: it
      comes back as a RuntimeError. */
  lemma AlreadyPresentLosesItsCode(message: string, posixCode: int)
    ensures StatusToPB(Error(AlreadyPresent, message, posixCode)).code == UNKNOWN_ERROR
    ensures StatusFromPB(StatusToPB(Error(AlreadyPresent, message, posixCode))).code == RuntimeError
  {
    UnrecognisedRoundTrip(Error(AlreadyPresent, message, posixCode));
  }

  /** The encoder with the AlreadyPresent branch the decoder expects: only
      codes that have no wire code at all fall back to UNKNOWN_ERROR, and every
      other error is sent with its own message. */
  function StatusToPBCorrected(s: Status): (pb: AppStatusPB)
    ensures pb.code == OK <==> s.Ok?
    ensures pb.code == ALREADY_PRESENT <==> s.Error? && s.code == AlreadyPresent
    ensures s.Error? ==> (pb.code == UNKNOWN_ERROR <==> s.code.Other?)
    ensures s.Error? ==> pb.message.Some? && pb.posixCode == PosixToPB(s.posixCode)
    ensures s.Error? && !s.code.Other? ==> pb.message.value == s.message
  {
    if s.Error? && s.code == AlreadyPresent then
      AppStatusPB(ALREADY_PRESENT, Some(s.message), PosixToPB(s.posixCode))
    else
      StatusToPB(s)
  }

  /** With the correction, every status whose code has a wire code round-trips
      exactly, AlreadyPresent included. */
  lemma CorrectedRoundTrip(s: Status)
    requires s.Error? ==> !s.code.Other?
    ensures StatusFromPB(StatusToPBCorrected(s)) == s
  {
    if s.Error? && s.code != AlreadyPresent {
      RecognisedRoundTrip(s);
    }
  }
}
