/**
 * `server_handshake`: reads a sealed hello, authenticates the claimed
 * public key, answers with a boxed response carrying two fresh nonces.
 * Exactly one of `on_success_` and `on_error_` is called, once; a protocol
 * failure reaches `on_error_` with the completion's code, which is not an
 * error.
 */
module ServerHandshake {
  import opened Wrappers
  import opened Bytes
  import opened Crypto
  import opened Errors
  import opened Transport
  import HandshakeHello
  import HandshakeResponse
  import opened Session

  /** The points at which the coroutine is suspended. */
  datatype Step = Start | AwaitingHello | SendingResponse | Done

  class Server {
    const session: SessionData
    /** The authenticator: is this claimed public key allowed in? */
    const auth: seq<byte> -> bool
    var step: Step
    /** How many times `on_success_` or `on_error_` has been called. */
    ghost var callbacks: nat

    ghost predicate Valid()
      reads this, session
    {
      session.Valid() && callbacks <= 1 && (step == Done <==> callbacks == 1)
    }

    constructor (session: SessionData, auth: seq<byte> -> bool)
      requires session.Valid()
      ensures Valid() && step == Start && callbacks == 0
      ensures this.session == session && this.auth == auth
    {
      this.session := session;
      this.auth := auth;
      step := Start;
      callbacks := 0;
    }

    /** The transport's side of the bargain: a read that succeeds fills the hello buffer. */
    predicate Accepts(c: Completion)
      reads this
    {
      step != Done && (step == AwaitingHello && !IsError(c.ec) ==> |c.received| == HandshakeHello.BUFFER_SIZE)
    }

    /** `operator()(ec, bytes)`: one resumption; the nonces are the response's fresh random nonces. */
    method Resume(na: Sodium, c: Completion, replyNonce: seq<byte>, followupNonce: seq<byte>) returns (act: Action)
      requires Valid() && na.Valid() && Accepts(c)
      requires step == AwaitingHello ==> |replyNonce| == NONCE && |followupNonce| == NONCE
      modifies this, session`remotePublicKey, session`decryptNonce, session`encryptNonce
      modifies session.helloBuffer, session.helloResponseBuffer
      ensures Valid()
      ensures callbacks == old(callbacks) + (if Terminal(act) then 1 else 0)
      ensures act.Invoke? ==> act == Invoke(c.ec, c.bytes)
      // A transport error goes straight to `on_error_` and changes nothing else.
      ensures IsError(c.ec) ==>
        && act == Invoke(c.ec, c.bytes) && step == Done
        && session.remotePublicKey == old(session.remotePublicKey)
        && session.decryptNonce == old(session.decryptNonce) && session.encryptNonce == old(session.encryptNonce)
      ensures !IsError(c.ec) && old(step) == Start ==>
        && act == Read(HandshakeHello.BUFFER_SIZE) && step == AwaitingHello
        && session.remotePublicKey == old(session.remotePublicKey)
        && session.decryptNonce == old(session.decryptNonce) && session.encryptNonce == old(session.encryptNonce)
      ensures !IsError(c.ec) && old(step) == AwaitingHello ==>
        var hello := HandshakeHello.Open(na, c.received, session.localPublicKey, session.localPrivateKey);
        && (hello.None? || !auth(HandshakeHello.PublicKeyField(hello.value)) ==>
              && act == Invoke(c.ec, c.bytes) && step == Done
              && session.remotePublicKey == old(session.remotePublicKey)
              && session.decryptNonce == old(session.decryptNonce)
              && session.encryptNonce == old(session.encryptNonce))
        && (hello.Some? && auth(HandshakeHello.PublicKeyField(hello.value)) ==>
              var peer := HandshakeHello.PublicKeyField(hello.value);
              var response := na.box(replyNonce + followupNonce, HandshakeHello.ReplyNonceField(hello.value),
                                     peer, session.localPrivateKey);
              && session.remotePublicKey == peer
              && session.decryptNonce == replyNonce
              && (response.None? ==> act == Invoke(c.ec, c.bytes) && step == Done &&
                                     session.encryptNonce == HandshakeHello.ReplyNonceField(hello.value))
              && (response.Some? ==> act == Write(response.value) && step == SendingResponse &&
                                     session.encryptNonce == followupNonce))
      ensures !IsError(c.ec) && old(step) == SendingResponse ==>
        && act == InvokeSuccess && step == Done
        && session.remotePublicKey == old(session.remotePublicKey)
        && session.decryptNonce == old(session.decryptNonce) && session.encryptNonce == old(session.encryptNonce)
    {
      if IsError(c.ec) {
        step := Done;
        callbacks := callbacks + 1;
        return Invoke(c.ec, c.bytes);
      }
      match step {
        case Start =>
          step := AwaitingHello;
          act := Read(HandshakeHello.BUFFER_SIZE);
        case AwaitingHello =>
          CopyInto(session.helloBuffer, 0, c.received);
          assert session.helloBuffer[..] == c.received;
          var accepted := session.ProcessHello(na, auth);
          if !accepted {
            step := Done;
            callbacks := callbacks + 1;
            return Invoke(c.ec, c.bytes);
          }
          var ok := session.MakeHelloResponse(na, replyNonce, followupNonce);
          if !ok {
            step := Done;
            callbacks := callbacks + 1;
            return Invoke(c.ec, c.bytes);
          }
          step := SendingResponse;
          act := Write(session.helloResponseBuffer[..]);
        case SendingResponse =>
          step := Done;
          callbacks := callbacks + 1;
          act := InvokeSuccess;
      }
    }
  }
}
