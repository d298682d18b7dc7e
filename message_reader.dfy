/**
 * `message_reader`: reads a header, opens it under the session's
 * `decryptNonce`, bounds the declared length by the caller's buffer, reads
 * the MAC and exactly that many ciphertext bytes into the front of the
 * buffer, ratchets `decryptNonce` and opens the payload in place.
 */
module MessageReader {
  import opened Wrappers
  import opened Bytes
  import opened Crypto
  import opened Endianness
  import opened Errors
  import opened Transport
  import MessageHeader
  import opened Session

  /** The points at which the coroutine is suspended. */
  datatype Step = Start | ReadingHeader | ReadingMac | ReadingMessage | Done

  class Reader {
    const session: SessionData
    const messageBuffer: array<byte>
    const host: Endian
    var step: Step
    var messageLength: nat
    /** How many times the caller's callback has been called or handed to the transport. */
    ghost var callbacks: nat

    ghost predicate Valid()
      reads this, session, session.headerBuffer
    {
      && session.Valid()
      && messageBuffer != session.helloBuffer
      && messageBuffer != session.helloResponseBuffer
      && messageBuffer != session.headerBuffer
      && callbacks <= 1
      && (step == Done <==> callbacks == 1)
      && (step == ReadingMac || step == ReadingMessage ==>
            messageLength <= messageBuffer.Length &&
            messageLength == MessageHeader.DeclaredLength(session.headerBuffer[..]))
    }

    constructor (session: SessionData, messageBuffer: array<byte>, host: Endian)
      requires session.Valid()
      requires messageBuffer != session.helloBuffer && messageBuffer != session.helloResponseBuffer
      requires messageBuffer != session.headerBuffer
      ensures Valid() && step == Start && callbacks == 0
      ensures this.session == session && this.messageBuffer == messageBuffer && this.host == host
    {
      this.session := session;
      this.messageBuffer := messageBuffer;
      this.host := host;
      step := Start;
      messageLength := 0;
      callbacks := 0;
    }

    /** The size of the read the machine is waiting for, if it is waiting for one. */
    function PendingRead(): Option<nat>
      reads this
    {
      match step
      case ReadingHeader => Some(MessageHeader.BUFFER_SIZE)
      case ReadingMac => Some(MAC)
      case ReadingMessage => Some(messageLength)
      case _ => None
    }

    /** The transport's side of the bargain: a read that succeeds delivers exactly what was asked. */
    predicate Accepts(c: Completion)
      reads this
    {
      step != Done && (!IsError(c.ec) && PendingRead().Some? ==> |c.received| == PendingRead().value)
    }

    /**
     * `process_header()`: opens the header; `message_header_decrypt` if it
     * does not open, `message_too_large` if it declares more than the buffer
     * holds.  `decryptNonce` is left alone.
     */
    method ProcessHeader(na: Sodium) returns (ec: ErrorCode)
      requires Valid() && na.Valid() && step == ReadingHeader
      modifies this`messageLength, session.headerBuffer
      ensures Valid()
      ensures var plain := MessageHeader.Open(na, old(session.headerBuffer[..]), session.decryptNonce,
                                              session.remotePublicKey, session.localPrivateKey);
        && (plain.None? ==> ec == ProtocolErrorCode(MessageHeaderDecrypt) &&
                            session.headerBuffer[..] == old(session.headerBuffer[..]))
        && (plain.Some? ==> session.headerBuffer[..] == plain.value &&
                            messageLength == MessageHeader.DeclaredLength(plain.value) &&
                            ec == (if messageLength > messageBuffer.Length
                                   then ProtocolErrorCode(MessageTooLarge) else NO_ERROR))
      ensures step == old(step)
    {
      var ok := MessageHeader.Decrypt(na, session.headerBuffer, session.decryptNonce,
                                      session.remotePublicKey, session.localPrivateKey);
      if !ok {
        return ProtocolErrorCode(MessageHeaderDecrypt);
      }
      messageLength := MessageHeader.MessageLength(session.headerBuffer, host);
      if messageLength > messageBuffer.Length {
        return ProtocolErrorCode(MessageTooLarge);
      }
      return NO_ERROR;
    }

    /**
     * `decrypt_message()`: `decryptNonce` becomes the header's followup nonce
     * first; then the first `messageLength` bytes are opened in place under
     * the header's data nonce and the received MAC.  The rest of the buffer is
     * never touched.
     */
    method DecryptMessage(na: Sodium) returns (ec: ErrorCode)
      requires Valid() && na.Valid() && step == ReadingMessage
      modifies session`decryptNonce, messageBuffer
      ensures Valid()
      ensures session.decryptNonce == MessageHeader.FollowupNonceField(session.headerBuffer[..])
      ensures var plain := na.boxOpenDetached(old(messageBuffer[..messageLength]), session.mac,
                                              MessageHeader.DataNonceField(session.headerBuffer[..]),
                                              session.remotePublicKey, session.localPrivateKey);
        && (plain.None? ==> ec == ProtocolErrorCode(MessageDecrypt) && messageBuffer[..] == old(messageBuffer[..]))
        && (plain.Some? ==> ec == NO_ERROR && messageBuffer[..] == Splice(old(messageBuffer[..]), 0, plain.value))
    {
      var ciphertext := messageBuffer[..messageLength];
      session.decryptNonce := MessageHeader.CopyFollowupNonce(session.headerBuffer);
      var dataNonce := MessageHeader.CopyDataNonce(session.headerBuffer);
      var plain := na.boxOpenDetached(ciphertext, session.mac, dataNonce,
                                      session.remotePublicKey, session.localPrivateKey);
      if plain.None? {
        return ProtocolErrorCode(MessageDecrypt);
      }
      CopyInto(messageBuffer, 0, plain.value);
      return NO_ERROR;
    }

    /** `operator()(ec, bytes)`: one resumption of the coroutine. */
    method Resume(na: Sodium, c: Completion) returns (act: Action)
      requires Valid() && na.Valid() && Accepts(c)
      modifies this, session`decryptNonce, session`mac, session.headerBuffer, messageBuffer
      ensures Valid()
      ensures callbacks == old(callbacks) + (if Terminal(act) then 1 else 0)
      // A transport error goes straight to the callback and changes nothing else.
      ensures IsError(c.ec) ==>
        && act == Invoke(c.ec, c.bytes) && step == Done
        && session.decryptNonce == old(session.decryptNonce) && session.mac == old(session.mac)
        && session.headerBuffer[..] == old(session.headerBuffer[..])
        && messageBuffer[..] == old(messageBuffer[..])
      ensures !IsError(c.ec) && old(step) == Start ==>
        && act == Read(MessageHeader.BUFFER_SIZE) && step == ReadingHeader
        && session.decryptNonce == old(session.decryptNonce) && session.mac == old(session.mac)
        && session.headerBuffer[..] == old(session.headerBuffer[..]) && messageBuffer[..] == old(messageBuffer[..])
      ensures !IsError(c.ec) && old(step) == ReadingHeader ==>
        var plain := MessageHeader.Open(na, c.received, session.decryptNonce,
                                        session.remotePublicKey, session.localPrivateKey);
        && session.decryptNonce == old(session.decryptNonce) && session.mac == old(session.mac)
        && messageBuffer[..] == old(messageBuffer[..])
        && session.headerBuffer[..] == (if plain.Some? then plain.value else c.received)
        && (plain.None? ==> act == Invoke(ProtocolErrorCode(MessageHeaderDecrypt), c.bytes) && step == Done)
        && (plain.Some? && MessageHeader.DeclaredLength(plain.value) > messageBuffer.Length ==>
              act == Invoke(ProtocolErrorCode(MessageTooLarge), c.bytes) && step == Done)
        && (plain.Some? && MessageHeader.DeclaredLength(plain.value) <= messageBuffer.Length ==>
              act == Read(MAC) && step == ReadingMac &&
              messageLength == MessageHeader.DeclaredLength(plain.value))
      ensures !IsError(c.ec) && old(step) == ReadingMac ==>
        && session.mac == c.received && act == Read(messageLength) && step == ReadingMessage
        && messageLength == old(messageLength)
        && session.decryptNonce == old(session.decryptNonce)
        && session.headerBuffer[..] == old(session.headerBuffer[..]) && messageBuffer[..] == old(messageBuffer[..])
      ensures !IsError(c.ec) && old(step) == ReadingMessage ==>
        var header := old(session.headerBuffer[..]);
        var plain := na.boxOpenDetached(c.received, old(session.mac), MessageHeader.DataNonceField(header),
                                        session.remotePublicKey, session.localPrivateKey);
        && step == Done
        && session.mac == old(session.mac) && session.headerBuffer[..] == header
        && session.decryptNonce == MessageHeader.FollowupNonceField(header)
        && (plain.None? ==> act == Invoke(ProtocolErrorCode(MessageDecrypt), c.bytes) &&
                            messageBuffer[..] == Splice(old(messageBuffer[..]), 0, c.received))
        && (plain.Some? ==> act == Invoke(NO_ERROR, 0) &&
                            messageBuffer[..] == Splice(old(messageBuffer[..]), 0, plain.value))
    {
      if IsError(c.ec) {
        step := Done;
        callbacks := callbacks + 1;
        return Invoke(c.ec, c.bytes);
      }
      match step {
        case Start =>
          step := ReadingHeader;
          act := Read(MessageHeader.BUFFER_SIZE);
        case ReadingHeader =>
          CopyInto(session.headerBuffer, 0, c.received);
          assert session.headerBuffer[..] == c.received;
          var ec := ProcessHeader(na);
          if IsError(ec) {
            step := Done;
            callbacks := callbacks + 1;
            return Invoke(ec, c.bytes);
          }
          step := ReadingMac;
          act := Read(MAC);
        case ReadingMac =>
          session.mac := c.received;
          step := ReadingMessage;
          act := Read(messageLength);
        case ReadingMessage =>
          CopyInto(messageBuffer, 0, c.received);
          var ec := DecryptMessage(na);
          step := Done;
          callbacks := callbacks + 1;
          if IsError(ec) {
            return Invoke(ec, c.bytes);
          }
          act := Invoke(NO_ERROR, 0);
      }
    }
  }
}
