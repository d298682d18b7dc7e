/**
 * The per-connection session record: the local key pair, the peer's public
 * key, the two ratchet nonces, the MAC scratch field and the three wire
 * buffers, with the handshake steps that rewrite them.
 */
module Session {
  import opened Wrappers
  import opened Bytes
  import opened Crypto
  import opened Endianness
  import HandshakeHello
  import HandshakeResponse
  import MessageHeader

  class SessionData {
    var decryptNonce: seq<byte>
    var encryptNonce: seq<byte>
    var remotePublicKey: seq<byte>
    const localPublicKey: seq<byte>
    const localPrivateKey: seq<byte>
    var mac: seq<byte>
    const helloBuffer: array<byte>
    const helloResponseBuffer: array<byte>
    const headerBuffer: array<byte>

    /** Every field has the size of its fixed-size array in the source. */
    ghost predicate Valid()
      reads this
    {
      && |decryptNonce| == NONCE
      && |encryptNonce| == NONCE
      && |remotePublicKey| == PUBLICKEY
      && |localPublicKey| == PUBLICKEY
      && |localPrivateKey| == SECRETKEY
      && |mac| == MAC
      && helloBuffer.Length == HandshakeHello.BUFFER_SIZE
      && helloResponseBuffer.Length == HandshakeResponse.BUFFER_SIZE
      && headerBuffer.Length == MessageHeader.BUFFER_SIZE
    }

    /** The three wire buffers; their sizes differ, so they never alias each other. */
    function Buffers(): set<array<byte>>
      reads this
    {
      {helloBuffer, helloResponseBuffer, headerBuffer}
    }

    /**
     * The initiator's session: the responder's public key is known in
     * advance.  Nonces, MAC and buffers start with unspecified contents.
     */
    constructor (remote: seq<byte>, localPk: seq<byte>, localSk: seq<byte>)
      requires |remote| == PUBLICKEY && |localPk| == PUBLICKEY && |localSk| == SECRETKEY
      ensures Valid()
      ensures remotePublicKey == remote && localPublicKey == localPk && localPrivateKey == localSk
      ensures fresh(helloBuffer) && fresh(helloResponseBuffer) && fresh(headerBuffer)
    {
      decryptNonce := seq(NONCE, _ => 0);
      encryptNonce := seq(NONCE, _ => 0);
      remotePublicKey := remote;
      localPublicKey := localPk;
      localPrivateKey := localSk;
      mac := seq(MAC, _ => 0);
      helloBuffer := new byte[HandshakeHello.BUFFER_SIZE];
      helloResponseBuffer := new byte[HandshakeResponse.BUFFER_SIZE];
      headerBuffer := new byte[MessageHeader.BUFFER_SIZE];
    }

    /**
     * The responder's session: the peer's public key is unspecified until a
     * hello passes authorization.
     */
    constructor WithoutPeer(localPk: seq<byte>, localSk: seq<byte>)
      requires |localPk| == PUBLICKEY && |localSk| == SECRETKEY
      ensures Valid()
      ensures localPublicKey == localPk && localPrivateKey == localSk
      ensures fresh(helloBuffer) && fresh(helloResponseBuffer) && fresh(headerBuffer)
    {
      decryptNonce := seq(NONCE, _ => 0);
      encryptNonce := seq(NONCE, _ => 0);
      remotePublicKey := seq(PUBLICKEY, _ => 0);
      localPublicKey := localPk;
      localPrivateKey := localSk;
      mac := seq(MAC, _ => 0);
      helloBuffer := new byte[HandshakeHello.BUFFER_SIZE];
      helloResponseBuffer := new byte[HandshakeResponse.BUFFER_SIZE];
      headerBuffer := new byte[MessageHeader.BUFFER_SIZE];
    }

    /**
     * `make_hello()`: writes the local public key and a fresh reply nonce
     * into the hello, sets `decryptNonce` to that nonce, then seals the hello
     * to `remotePublicKey`.  `sealed` is the result of `encrypt_to`, which
     * this member of the source discards and the client handshake checks.
     */
    method MakeHello(na: Sodium, replyNonce: seq<byte>) returns (sealed: bool)
      requires Valid() && na.Valid() && |replyNonce| == NONCE
      modifies this`decryptNonce, helloBuffer
      ensures Valid()
      ensures decryptNonce == replyNonce
      ensures sealed <==> na.seal(localPublicKey + replyNonce, remotePublicKey).Some?
      ensures sealed ==> helloBuffer[..] == na.seal(localPublicKey + replyNonce, remotePublicKey).value
      ensures !sealed ==> HandshakeHello.DataSpan(helloBuffer[..]) == localPublicKey + replyNonce
    {
      HandshakeHello.SetPublicKey(helloBuffer, localPublicKey);
      ghost var withKey := helloBuffer[..];
      HandshakeHello.GenerateReplyNonce(helloBuffer, replyNonce);
      SpliceKeepsDisjoint(withKey, HandshakeHello.REPLY_NONCE_OFFSET, replyNonce,
                          HandshakeHello.PUBLIC_KEY_OFFSET, PUBLICKEY);
      decryptNonce := HandshakeHello.CopyReplyNonce(helloBuffer);
      HandshakeHello.Layout(helloBuffer[..]);
      assert HandshakeHello.DataSpan(helloBuffer[..]) == localPublicKey + replyNonce;
      sealed := HandshakeHello.EncryptTo(na, helloBuffer, remotePublicKey);
    }

    /**
     * `process_hello(auth)`: opens the hello with the local key pair; if that
     * fails, or `auth` rejects the claimed key, it returns false and changes
     * no key and no nonce; otherwise the claimed key becomes the peer's key
     * and the hello's reply nonce becomes `encryptNonce`.
     */
    method ProcessHello(na: Sodium, auth: seq<byte> -> bool) returns (accepted: bool)
      requires Valid() && na.Valid()
      modifies this`remotePublicKey, this`encryptNonce, helloBuffer
      ensures Valid()
      ensures var plain := HandshakeHello.Open(na, old(helloBuffer[..]), localPublicKey, localPrivateKey);
        && (plain.None? ==> !accepted && helloBuffer[..] == old(helloBuffer[..]))
        && (plain.Some? ==> helloBuffer[..] == plain.value)
        && (accepted <==> plain.Some? && auth(HandshakeHello.PublicKeyField(plain.value)))
      ensures accepted ==> remotePublicKey == HandshakeHello.PublicKeyField(helloBuffer[..])
      ensures accepted ==> encryptNonce == HandshakeHello.ReplyNonceField(helloBuffer[..])
      ensures !accepted ==> remotePublicKey == old(remotePublicKey) && encryptNonce == old(encryptNonce)
    {
      var ok := HandshakeHello.Decrypt(na, helloBuffer, localPublicKey, localPrivateKey);
      if !ok {
        return false;
      }
      var publicKey := helloBuffer[HandshakeHello.PUBLIC_KEY_OFFSET..HandshakeHello.PUBLIC_KEY_OFFSET + PUBLICKEY];
      if !auth(publicKey) {
        return false;
      }
      remotePublicKey := publicKey;
      encryptNonce := HandshakeHello.CopyReplyNonce(helloBuffer);
      return true;
    }

    /**
     * `make_hello_response()`: a fresh reply nonce goes into the response and
     * into `decryptNonce`; a fresh followup nonce goes into the response; the
     * response is boxed under the current `encryptNonce`, and only if that
     * succeeds does `encryptNonce` become the followup nonce.
     */
    method MakeHelloResponse(na: Sodium, replyNonce: seq<byte>, followupNonce: seq<byte>) returns (ok: bool)
      requires Valid() && na.Valid() && |replyNonce| == NONCE && |followupNonce| == NONCE
      modifies this`decryptNonce, this`encryptNonce, helloResponseBuffer
      ensures Valid()
      ensures decryptNonce == replyNonce
      ensures ok <==> na.box(replyNonce + followupNonce, old(encryptNonce), remotePublicKey, localPrivateKey).Some?
      ensures ok ==> helloResponseBuffer[..]
                       == na.box(replyNonce + followupNonce, old(encryptNonce), remotePublicKey, localPrivateKey).value
      ensures ok ==> encryptNonce == followupNonce
      ensures !ok ==> encryptNonce == old(encryptNonce)
      ensures !ok ==> HandshakeResponse.DataSpan(helloResponseBuffer[..]) == replyNonce + followupNonce
    {
      HandshakeResponse.GenerateReplyNonce(helloResponseBuffer, replyNonce);
      decryptNonce := HandshakeResponse.CopyReplyNonce(helloResponseBuffer);
      ghost var withReply := helloResponseBuffer[..];
      HandshakeResponse.GenerateFollowupNonce(helloResponseBuffer, followupNonce);
      SpliceKeepsDisjoint(withReply, HandshakeResponse.FOLLOWUP_NONCE_OFFSET, followupNonce,
                          HandshakeResponse.REPLY_NONCE_OFFSET, NONCE);
      var tempFollowupNonce := HandshakeResponse.CopyFollowupNonce(helloResponseBuffer);
      HandshakeResponse.Layout(helloResponseBuffer[..]);
      assert HandshakeResponse.DataSpan(helloResponseBuffer[..]) == replyNonce + followupNonce;
      ok := HandshakeResponse.EncryptTo(na, helloResponseBuffer, encryptNonce, remotePublicKey, localPrivateKey);
      if !ok {
        return;
      }
      encryptNonce := tempFollowupNonce;
    }

    /**
     * `process_hello_response()`: opens the response under `decryptNonce`;
     * on success `encryptNonce` becomes its reply field and `decryptNonce`
     * its followup field; on failure both nonces are unchanged.
     */
    method ProcessHelloResponse(na: Sodium) returns (ok: bool)
      requires Valid() && na.Valid()
      modifies this`decryptNonce, this`encryptNonce, helloResponseBuffer
      ensures Valid()
      ensures var plain := HandshakeResponse.Open(na, old(helloResponseBuffer[..]), old(decryptNonce),
                                                  remotePublicKey, localPrivateKey);
        && (ok <==> plain.Some?)
        && (ok ==> helloResponseBuffer[..] == plain.value)
      ensures ok ==> encryptNonce == HandshakeResponse.ReplyNonceField(helloResponseBuffer[..])
      ensures ok ==> decryptNonce == HandshakeResponse.FollowupNonceField(helloResponseBuffer[..])
      ensures !ok ==> helloResponseBuffer[..] == old(helloResponseBuffer[..])
      ensures !ok ==> encryptNonce == old(encryptNonce) && decryptNonce == old(decryptNonce)
    {
      ok := HandshakeResponse.Decrypt(na, helloResponseBuffer, decryptNonce, remotePublicKey, localPrivateKey);
      if !ok {
        return;
      }
      encryptNonce := HandshakeResponse.CopyReplyNonce(helloResponseBuffer);
      decryptNonce := HandshakeResponse.CopyFollowupNonce(helloResponseBuffer);
    }

    /**
     * `process_header()`: opens the header under `decryptNonce` and returns
     * its declared length, or `None` if it does not open.  No nonce changes.
     */
    method ProcessHeader(na: Sodium, host: Endian) returns (length: Option<nat>)
      requires Valid() && na.Valid()
      modifies headerBuffer
      ensures var plain := MessageHeader.Open(na, old(headerBuffer[..]), decryptNonce,
                                              remotePublicKey, localPrivateKey);
        && (length.Some? <==> plain.Some?)
        && (plain.Some? ==> headerBuffer[..] == plain.value)
        && (plain.None? ==> headerBuffer[..] == old(headerBuffer[..]))
      ensures length.Some? ==> length.value == MessageHeader.DeclaredLength(headerBuffer[..])
      ensures decryptNonce == old(decryptNonce) && encryptNonce == old(encryptNonce)
    {
      var ok := MessageHeader.Decrypt(na, headerBuffer, decryptNonce, remotePublicKey, localPrivateKey);
      if !ok {
        return None;
      }
      var n := MessageHeader.MessageLength(headerBuffer, host);
      return Some(n);
    }
  }
}
