/**
 * `client_handshake`: connects, sends a hello sealed to the responder's
 * public key, reads the boxed response and adopts its nonces.  Exactly one
 * of `on_success_` and `on_error_` is called, once.
 */
module ClientHandshake {
  import opened Wrappers
  import opened Bytes
  import opened Crypto
  import opened Errors
  import opened Transport
  import HandshakeHello
  import HandshakeResponse
  import opened Session

  /** The points at which the coroutine is suspended. */
  datatype Step = Start | Connecting | SendingHello | AwaitingResponse | Done

  class Client {
    const session: SessionData
    var step: Step
    /** How many times `on_success_` or `on_error_` has been called. */
    ghost var callbacks: nat

    ghost predicate Valid()
      reads this, session
    {
      session.Valid() && callbacks <= 1 && (step == Done <==> callbacks == 1)
    }

    constructor (session: SessionData)
      requires session.Valid()
      ensures Valid() && step == Start && callbacks == 0 && this.session == session
    {
      this.session := session;
      step := Start;
      callbacks := 0;
    }

    /** The transport's side of the bargain: a read that succeeds fills the response buffer. */
    predicate Accepts(c: Completion)
      reads this
    {
      step != Done && (step == AwaitingResponse && !IsError(c.ec) ==> |c.received| == HandshakeResponse.BUFFER_SIZE)
    }

    /**
     * The resumption after `connect` as the coroutine is written: a failed
     * seal is reported as `make_error_code(handshake_hello_encrypt)`, whose
     * value is 0, so `if (ec)` does not fire and the hello is sent although
     * it was never sealed, its data span holding the local key and the reply
     * nonce in the clear.  `Resume` is the corrected step.
     */
    method SendHelloAsWritten(na: Sodium, replyNonce: seq<byte>) returns (act: Action)
      requires Valid() && na.Valid() && step == Connecting && |replyNonce| == NONCE
      modifies this, session`decryptNonce, session.helloBuffer
      ensures Valid() && step == SendingHello && callbacks == old(callbacks)
      ensures session.decryptNonce == replyNonce
      ensures act == Write(session.helloBuffer[..])
      ensures na.seal(session.localPublicKey + replyNonce, session.remotePublicKey).None? ==>
        HandshakeHello.DataSpan(session.helloBuffer[..]) == session.localPublicKey + replyNonce
    {
      var sealed := session.MakeHello(na, replyNonce);
      var ec := if sealed then NO_ERROR else MakeErrorCode(HandshakeHelloEncrypt);
      HelloEncryptCodeIsNotAnError();
      if IsError(ec) {
        // `on_error_(ec)`: never reached, since neither value of `ec` is an error.
        assert false;
      }
      step := SendingHello;
      act := Write(session.helloBuffer[..]);
    }

    /** `operator()(ec, bytes)`: one resumption; `replyNonce` is the hello's fresh random nonce. */
    method Resume(na: Sodium, c: Completion, replyNonce: seq<byte>) returns (act: Action)
      requires Valid() && na.Valid() && Accepts(c)
      requires step == Connecting ==> |replyNonce| == NONCE
      modifies this, session`decryptNonce, session`encryptNonce, session.helloBuffer, session.helloResponseBuffer
      ensures Valid()
      ensures callbacks == old(callbacks) + (if Terminal(act) then 1 else 0)
      // A transport error goes straight to `on_error_` and changes nothing else.
      ensures IsError(c.ec) ==>
        && act == InvokeError(c.ec) && step == Done
        && session.decryptNonce == old(session.decryptNonce) && session.encryptNonce == old(session.encryptNonce)
      ensures !IsError(c.ec) && old(step) == Start ==>
        act == Connect && step == Connecting && session.decryptNonce == old(session.decryptNonce)
      ensures !IsError(c.ec) && old(step) == Connecting ==>
        var sealed := na.seal(session.localPublicKey + replyNonce, session.remotePublicKey);
        && session.decryptNonce == replyNonce && session.encryptNonce == old(session.encryptNonce)
        && (sealed.None? ==> act == InvokeError(ProtocolErrorCode(HandshakeHelloEncrypt)) && step == Done)
        && (sealed.Some? ==> act == Write(sealed.value) && step == SendingHello)
      ensures !IsError(c.ec) && old(step) == SendingHello ==>
        && act == Read(HandshakeResponse.BUFFER_SIZE) && step == AwaitingResponse
        && session.decryptNonce == old(session.decryptNonce) && session.encryptNonce == old(session.encryptNonce)
      ensures !IsError(c.ec) && old(step) == AwaitingResponse ==>
        var plain := HandshakeResponse.Open(na, c.received, old(session.decryptNonce),
                                            session.remotePublicKey, session.localPrivateKey);
        && step == Done
        && (plain.None? ==> act == InvokeError(ProtocolErrorCode(HandshakeResponseDecrypt)) &&
                            session.decryptNonce == old(session.decryptNonce) &&
                            session.encryptNonce == old(session.encryptNonce))
        && (plain.Some? ==> act == InvokeSuccess &&
                            session.encryptNonce == HandshakeResponse.ReplyNonceField(plain.value) &&
                            session.decryptNonce == HandshakeResponse.FollowupNonceField(plain.value))
    {
      if IsError(c.ec) {
        step := Done;
        callbacks := callbacks + 1;
        return InvokeError(c.ec);
      }
      match step {
        case Start =>
          step := Connecting;
          act := Connect;
        case Connecting =>
          var sealed := session.MakeHello(na, replyNonce);
          if !sealed {
            step := Done;
            callbacks := callbacks + 1;
            return InvokeError(ProtocolErrorCode(HandshakeHelloEncrypt));
          }
          step := SendingHello;
          act := Write(session.helloBuffer[..]);
        case SendingHello =>
          step := AwaitingResponse;
          act := Read(HandshakeResponse.BUFFER_SIZE);
        case AwaitingResponse =>
          CopyInto(session.helloResponseBuffer, 0, c.received);
          assert session.helloResponseBuffer[..] == c.received;
          var ok := session.ProcessHelloResponse(na);
          step := Done;
          callbacks := callbacks + 1;
          if !ok {
            return InvokeError(ProtocolErrorCode(HandshakeResponseDecrypt));
          }
          act := InvokeSuccess;
      }
    }
  }
}
