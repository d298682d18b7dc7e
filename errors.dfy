/**
 * The protocol's error kinds, their category and `make_error_code`.
 *
 * A `std::error_code` is a value and a category; it converts to `true`
 * exactly when its value is non-zero.
 */
module Errors {
  import opened Wrappers

  /** The ten protocol error kinds, in declaration order. */
  datatype Error =
    | HandshakeHelloEncrypt
    | HandshakeHelloDecrypt
    | HandshakeAuthentication
    | HandshakeResponseEncrypt
    | HandshakeResponseDecrypt
    | MessageHeaderEncrypt
    | MessageHeaderDecrypt
    | MessageTooLarge
    | MessageEncrypt
    | MessageDecrypt

  const ERROR_KINDS: nat := 10

  /** `error_category::name()` */
  const CATEGORY_NAME: string := "asio_sodium errors"

  /** The position of a kind in the enumeration, which is its value as written. */
  function Ordinal(e: Error): (r: nat)
    ensures r < ERROR_KINDS
  {
    match e
    case HandshakeHelloEncrypt => 0
    case HandshakeHelloDecrypt => 1
    case HandshakeAuthentication => 2
    case HandshakeResponseEncrypt => 3
    case HandshakeResponseDecrypt => 4
    case MessageHeaderEncrypt => 5
    case MessageHeaderDecrypt => 6
    case MessageTooLarge => 7
    case MessageEncrypt => 8
    case MessageDecrypt => 9
  }

  /** `static_cast<error>(ev)` for a value that names an enumerator. */
  function FromOrdinal(v: nat): (e: Error)
    requires v < ERROR_KINDS
    ensures Ordinal(e) == v
  {
    if v == 0 then HandshakeHelloEncrypt
    else if v == 1 then HandshakeHelloDecrypt
    else if v == 2 then HandshakeAuthentication
    else if v == 3 then HandshakeResponseEncrypt
    else if v == 4 then HandshakeResponseDecrypt
    else if v == 5 then MessageHeaderEncrypt
    else if v == 6 then MessageHeaderDecrypt
    else if v == 7 then MessageTooLarge
    else if v == 8 then MessageEncrypt
    else MessageDecrypt
  }

  /** Distinct kinds have distinct ordinals, so the order is a fixed enumeration. */
  lemma OrdinalRoundTrip(e: Error)
    ensures FromOrdinal(Ordinal(e)) == e
  {
  }

  /** The text `error_category::message` gives each kind. */
  function Message(e: Error): string
  {
    match e
    case HandshakeHelloEncrypt => "Couldn't encrypt handshake hello"
    case HandshakeHelloDecrypt => "Couldn't decrypt handshake hello"
    case HandshakeAuthentication => "Handshake failed to authenticate"
    case HandshakeResponseEncrypt => "Couldn't encrypt handshake response"
    case HandshakeResponseDecrypt => "Couldn't decrypt handshake response"
    case MessageHeaderEncrypt => "Couldn't encrypt message header"
    case MessageHeaderDecrypt => "Couldn't decrypt message header"
    case MessageTooLarge => "Message too large"
    case MessageEncrypt => "Couldn't encrypt message"
    case MessageDecrypt => "Couldn't decrypt message"
  }

  /** No two kinds share a message, so the text identifies the kind. */
  lemma MessagesDistinct(e1: Error, e2: Error)
    requires e1 != e2
    ensures Message(e1) != Message(e2)
  {
  }

  /** The category a `std::error_code` belongs to. */
  datatype Category = Transport | AsioSodium

  datatype ErrorCode = ErrorCode(value: int, category: Category)

  /** A default-constructed `std::error_code`: no error. */
  const NO_ERROR: ErrorCode := ErrorCode(0, Transport)

  /** `static_cast<bool>(ec)`: true exactly when the value is non-zero. */
  predicate IsError(ec: ErrorCode)
  {
    ec.value != 0
  }

  /** `make_error_code(e)` as written: the kind's ordinal in the asio_sodium category. */
  function MakeErrorCode(e: Error): (ec: ErrorCode)
    ensures ec.category == AsioSodium
    ensures ec.value == Ordinal(e)
  {
    ErrorCode(Ordinal(e), AsioSodium)
  }

  /**
   * `error_category::message(ev)` as written: the text of the enumerator whose
   * value is `ev`; a value that names no enumerator falls off the switch
   * (undefined behaviour), which is `None` here.
   */
  function CategoryMessage(ev: int): (r: Option<string>)
    ensures r.Some? <==> 0 <= ev < ERROR_KINDS
  {
    if 0 <= ev < ERROR_KINDS then Some(Message(FromOrdinal(ev))) else None
  }

  /** The message of a code made from a kind is the kind's message. */
  lemma CategoryMessageOfMadeCode(e: Error)
    ensures CategoryMessage(MakeErrorCode(e).value) == Some(Message(e))
  {
    OrdinalRoundTrip(e);
  }

  /**
   * As written, the first kind has value 0, so its error code converts to
   * `false` and `if (ec)` does not see it as an error.
   */
  lemma HelloEncryptCodeIsNotAnError()
    ensures !IsError(MakeErrorCode(HandshakeHelloEncrypt))
    ensures forall e :: e != HandshakeHelloEncrypt ==> IsError(MakeErrorCode(e))
  {
  }

  /**
   * The corrected `make_error_code`: enumerators numbered from 1, so that
   * every protocol error converts to `true`.  The state machines use this one.
   */
  function ProtocolErrorCode(e: Error): (ec: ErrorCode)
    ensures ec.category == AsioSodium
    ensures IsError(ec)
    ensures ec.value == Ordinal(e) + 1
  {
    ErrorCode(Ordinal(e) + 1, AsioSodium)
  }

  /** The corrected `error_category::message`, for enumerators numbered from 1. */
  function ProtocolCategoryMessage(ev: int): (r: Option<string>)
    ensures r.Some? <==> 1 <= ev <= ERROR_KINDS
  {
    if 1 <= ev <= ERROR_KINDS then Some(Message(FromOrdinal(ev - 1))) else None
  }

  /** Every corrected code is an error, carries its kind, and reads back its message. */
  lemma ProtocolErrorCodeCorrect(e: Error, e': Error)
    ensures IsError(ProtocolErrorCode(e))
    ensures ProtocolCategoryMessage(ProtocolErrorCode(e).value) == Some(Message(e))
    ensures ProtocolErrorCode(e) == ProtocolErrorCode(e') <==> e == e'
  {
    OrdinalRoundTrip(e);
    OrdinalRoundTrip(e');
  }
}
