/**
 * `message_writer`: encrypts the caller's message in place (detached MAC),
 * fills and encrypts the header under the session's `encryptNonce`, ratchets
 * `encryptNonce` to the header's followup nonce, and writes header, MAC and
 * ciphertext; the last write completes straight into the caller's callback.
 */
module MessageWriter {
  import opened Wrappers
  import opened Bytes
  import opened Crypto
  import opened Endianness
  import opened Errors
  import opened Transport
  import opened MessageHeader
  import opened Session

  /**
   * `set_message_length(message_.length())` as written: the span's length is
   * converted to the parameter's `uint32_t` with no check, so it is reduced
   * modulo 2^32.
   */
  function WireLengthAsWritten(length: nat): (r: nat)
    ensures r < UINT32_LIMIT
    ensures length < UINT32_LIMIT ==> r == length
    ensures length >= UINT32_LIMIT ==> r != length
  {
    length % UINT32_LIMIT
  }

  /** A message of exactly 2^32 bytes is announced as an empty one. */
  lemma LengthAsWrittenMisframes()
    ensures WireLengthAsWritten(UINT32_LIMIT) == 0
  {
  }

  /**
   * The plaintext header the writer builds: fresh data and followup
   * nonces and the little-endian message length, the MAC slot untouched.
   */
  function PlainHeader(header: seq<byte>, dataNonce: seq<byte>, followupNonce: seq<byte>, length: nat): (r: seq<byte>)
    requires |header| == BUFFER_SIZE && |dataNonce| == NONCE && |followupNonce| == NONCE
    requires length < UINT32_LIMIT
    ensures |r| == BUFFER_SIZE && r[..MAC] == header[..MAC]
    ensures DataNonceField(r) == dataNonce
    ensures FollowupNonceField(r) == followupNonce
    ensures DeclaredLength(r) == length
  {
    Layout(header);
    var withData := Splice(header, DATA_NONCE_OFFSET, dataNonce);
    var withFollowup := Splice(withData, FOLLOWUP_NONCE_OFFSET, followupNonce);
    SpliceKeepsDisjoint(withData, FOLLOWUP_NONCE_OFFSET, followupNonce, DATA_NONCE_OFFSET, NONCE);
    var r := Splice(withFollowup, MESSAGE_LENGTH_OFFSET, LittleEndianBytes(LENGTH_SIZE, length));
    SpliceKeepsDisjoint(withFollowup, MESSAGE_LENGTH_OFFSET, LittleEndianBytes(LENGTH_SIZE, length), DATA_NONCE_OFFSET, NONCE);
    SpliceKeepsDisjoint(withFollowup, MESSAGE_LENGTH_OFFSET, LittleEndianBytes(LENGTH_SIZE, length), FOLLOWUP_NONCE_OFFSET, NONCE);
    LengthRoundTrip(withFollowup, length);
    r
  }

  /** The points at which the coroutine is suspended. */
  datatype Step = Start | SendingHeader | SendingMac | Done

  class Writer {
    const session: SessionData
    const message: array<byte>
    const host: Endian
    var step: Step
    /** How many times the caller's callback has been called or handed to the transport. */
    ghost var callbacks: nat

    ghost predicate Valid()
      reads this, session
    {
      && session.Valid()
      && message != session.helloBuffer
      && message != session.helloResponseBuffer
      && message != session.headerBuffer
      && callbacks <= 1
      && (step == Done <==> callbacks == 1)
    }

    constructor (session: SessionData, message: array<byte>, host: Endian)
      requires session.Valid()
      requires message != session.helloBuffer && message != session.helloResponseBuffer
      requires message != session.headerBuffer
      ensures Valid() && step == Start && callbacks == 0
      ensures this.session == session && this.message == message && this.host == host
    {
      this.session := session;
      this.message := message;
      this.host := host;
      step := Start;
      callbacks := 0;
    }

    /**
     * `encrypt_message_in_place_and_write_header()`, with the length check
     * the wire format needs: a message that a 32-bit length cannot announce
     * is refused before anything is touched.  `encryptNonce` moves to the
     * new followup nonce only when both encryptions succeed.
     */
    method EncryptMessageInPlaceAndWriteHeader(na: Sodium, dataNonce: seq<byte>, followupNonce: seq<byte>)
      returns (ec: ErrorCode)
      requires Valid() && na.Valid() && |dataNonce| == NONCE && |followupNonce| == NONCE
      modifies session`mac, session`encryptNonce, session.headerBuffer, message
      ensures Valid()
      ensures message.Length >= UINT32_LIMIT ==>
        && ec == ProtocolErrorCode(MessageTooLarge)
        && message[..] == old(message[..]) && session.headerBuffer[..] == old(session.headerBuffer[..])
        && session.mac == old(session.mac) && session.encryptNonce == old(session.encryptNonce)
      ensures message.Length < UINT32_LIMIT ==>
        var header := PlainHeader(old(session.headerBuffer[..]), dataNonce, followupNonce, message.Length);
        var d := na.boxDetached(old(message[..]), dataNonce, session.remotePublicKey, session.localPrivateKey);
        var h := Box(na, header, old(session.encryptNonce), session.remotePublicKey, session.localPrivateKey);
        && (d.None? ==> ec == ProtocolErrorCode(MessageEncrypt) && session.headerBuffer[..] == header &&
                        message[..] == old(message[..]) && session.encryptNonce == old(session.encryptNonce))
        && (d.Some? ==> message[..] == d.value.ciphertext && session.mac == d.value.mac)
        && (d.Some? && h.None? ==> ec == ProtocolErrorCode(MessageHeaderEncrypt) &&
                                   session.headerBuffer[..] == header &&
                                   session.encryptNonce == old(session.encryptNonce))
        && (d.Some? && h.Some? ==> ec == NO_ERROR && session.headerBuffer[..] == h.value &&
                                   session.encryptNonce == followupNonce)
    {
      if message.Length >= UINT32_LIMIT {
        return ProtocolErrorCode(MessageTooLarge);
      }
      ghost var header := PlainHeader(session.headerBuffer[..], dataNonce, followupNonce, message.Length);
      GenerateDataNonce(session.headerBuffer, dataNonce);
      GenerateFollowupNonce(session.headerBuffer, followupNonce);
      SetMessageLength(session.headerBuffer, host, message.Length);
      assert session.headerBuffer[..] == header;

      var nonce := CopyDataNonce(session.headerBuffer);
      var d := na.boxDetached(message[..], nonce, session.remotePublicKey, session.localPrivateKey);
      if d.None? {
        return ProtocolErrorCode(MessageEncrypt);
      }
      CopyInto(message, 0, d.value.ciphertext);
      session.mac := d.value.mac;

      var tempFollowupNonce := CopyFollowupNonce(session.headerBuffer);
      var ok := EncryptTo(na, session.headerBuffer, session.encryptNonce,
                          session.remotePublicKey, session.localPrivateKey);
      if !ok {
        return ProtocolErrorCode(MessageHeaderEncrypt);
      }
      session.encryptNonce := tempFollowupNonce;
      return NO_ERROR;
    }

    /** `operator()(ec, bytes)`: one resumption; the nonces are the header's fresh random nonces. */
    method Resume(na: Sodium, c: Completion, dataNonce: seq<byte>, followupNonce: seq<byte>) returns (act: Action)
      requires Valid() && na.Valid() && step != Done
      requires step == Start ==> |dataNonce| == NONCE && |followupNonce| == NONCE
      modifies this, session`mac, session`encryptNonce, session.headerBuffer, message
      ensures Valid()
      ensures callbacks == old(callbacks) + (if Terminal(act) then 1 else 0)
      // A transport error goes straight to the callback and changes nothing else.
      ensures IsError(c.ec) ==>
        && act == Invoke(c.ec, c.bytes) && step == Done
        && session.encryptNonce == old(session.encryptNonce) && session.mac == old(session.mac)
        && session.headerBuffer[..] == old(session.headerBuffer[..]) && message[..] == old(message[..])
      ensures !IsError(c.ec) && old(step) == Start && message.Length >= UINT32_LIMIT ==>
        && act == Invoke(ProtocolErrorCode(MessageTooLarge), c.bytes) && step == Done
        && session.encryptNonce == old(session.encryptNonce) && message[..] == old(message[..])
      ensures !IsError(c.ec) && old(step) == Start && message.Length < UINT32_LIMIT ==>
        var header := PlainHeader(old(session.headerBuffer[..]), dataNonce, followupNonce, message.Length);
        var d := na.boxDetached(old(message[..]), dataNonce, session.remotePublicKey, session.localPrivateKey);
        var h := Box(na, header, old(session.encryptNonce), session.remotePublicKey, session.localPrivateKey);
        && (d.None? ==> act == Invoke(ProtocolErrorCode(MessageEncrypt), c.bytes) && step == Done &&
                        session.encryptNonce == old(session.encryptNonce))
        && (d.Some? && h.None? ==> act == Invoke(ProtocolErrorCode(MessageHeaderEncrypt), c.bytes) &&
                                   step == Done && session.encryptNonce == old(session.encryptNonce))
        && (d.Some? && h.Some? ==>
              && act == Write(h.value) && step == SendingHeader
              && session.headerBuffer[..] == h.value && session.mac == d.value.mac
              && message[..] == d.value.ciphertext && session.encryptNonce == followupNonce)
      ensures !IsError(c.ec) && old(step) == SendingHeader ==>
        && act == Write(session.mac) && step == SendingMac
        && session.encryptNonce == old(session.encryptNonce) && session.mac == old(session.mac)
        && session.headerBuffer[..] == old(session.headerBuffer[..]) && message[..] == old(message[..])
      ensures !IsError(c.ec) && old(step) == SendingMac ==>
        && act == WriteThenCall(message[..]) && step == Done
        && session.encryptNonce == old(session.encryptNonce) && session.mac == old(session.mac)
        && session.headerBuffer[..] == old(session.headerBuffer[..]) && message[..] == old(message[..])
    {
      if IsError(c.ec) {
        step := Done;
        callbacks := callbacks + 1;
        return Invoke(c.ec, c.bytes);
      }
      match step {
        case Start =>
          var ec := EncryptMessageInPlaceAndWriteHeader(na, dataNonce, followupNonce);
          if IsError(ec) {
            step := Done;
            callbacks := callbacks + 1;
            return Invoke(ec, c.bytes);
          }
          step := SendingHeader;
          act := Write(session.headerBuffer[..]);
        case SendingHeader =>
          step := SendingMac;
          act := Write(session.mac);
        case SendingMac =>
          step := Done;
          callbacks := callbacks + 1;
          act := WriteThenCall(message[..]);
      }
    }
  }
}
