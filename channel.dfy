/**
 * The two ends of a connection run against each other: the client and
 * server handshakes, then one message from a writer to a reader.  Every
 * action one machine emits is fed to the other as the completion the
 * transport would deliver.  Both ends are honest: each holds a genuine key
 * pair and the client knows the server's public key.
 */
module Channel {
  import opened Wrappers
  import opened Bytes
  import opened Crypto
  import opened Errors
  import opened Transport
  import HandshakeHello
  import HandshakeResponse
  import MessageHeader
  import opened Session
  import opened ClientHandshake
  import opened ServerHandshake
  import opened MessageReader
  import opened MessageWriter

  /** A hello sealed to a key pair's public half opens with that key pair, claiming the sender's key and nonce. */
  lemma HelloOpens(na: Sodium, key: seq<byte>, nonce: seq<byte>, pk: seq<byte>, sk: seq<byte>)
    requires na.Valid() && |key| == PUBLICKEY && |nonce| == NONCE && na.isKeyPair(pk, sk)
    requires na.seal(key + nonce, pk).Some?
    ensures |na.seal(key + nonce, pk).value| == HandshakeHello.BUFFER_SIZE
    ensures var plain := HandshakeHello.Open(na, na.seal(key + nonce, pk).value, pk, sk);
      && plain.Some?
      && HandshakeHello.PublicKeyField(plain.value) == key
      && HandshakeHello.ReplyNonceField(plain.value) == nonce
  {
    var plain := HandshakeHello.Open(na, na.seal(key + nonce, pk).value, pk, sk).value;
    HandshakeHello.Layout(plain);
    assert HandshakeHello.DataSpan(plain) == key + nonce;
  }

  /** A response boxed from A to B opens at B under the same nonce, carrying both nonces. */
  lemma ResponseOpens(na: Sodium, reply: seq<byte>, followup: seq<byte>, nonce: seq<byte>,
                      pkA: seq<byte>, skA: seq<byte>, pkB: seq<byte>, skB: seq<byte>)
    requires na.Valid() && |reply| == NONCE && |followup| == NONCE
    requires na.isKeyPair(pkA, skA) && na.isKeyPair(pkB, skB)
    requires na.box(reply + followup, nonce, pkB, skA).Some?
    ensures |na.box(reply + followup, nonce, pkB, skA).value| == HandshakeResponse.BUFFER_SIZE
    ensures var plain := HandshakeResponse.Open(na, na.box(reply + followup, nonce, pkB, skA).value, nonce, pkA, skB);
      && plain.Some?
      && HandshakeResponse.ReplyNonceField(plain.value) == reply
      && HandshakeResponse.FollowupNonceField(plain.value) == followup
  {
    var plain := HandshakeResponse.Open(na, na.box(reply + followup, nonce, pkB, skA).value, nonce, pkA, skB).value;
    HandshakeResponse.Layout(plain);
    assert HandshakeResponse.DataSpan(plain) == reply + followup;
  }

  /** Two sessions share no object: not the record, not a buffer. */
  predicate Separate(a: SessionData, b: SessionData)
    reads a, b
  {
    a != b && a.Buffers() !! b.Buffers()
  }

  /** The client connects and sends a hello sealed to the server's key. */
  method SendHello(na: Sodium, client: Client, helloNonce: seq<byte>) returns (act: Action)
    requires na.Valid() && client.Valid() && client.step == ClientHandshake.Start && |helloNonce| == NONCE
    modifies client, client.session, client.session.helloBuffer, client.session.helloResponseBuffer
    ensures client.Valid() && client.session.remotePublicKey == old(client.session.remotePublicKey)
    ensures var sealed := na.seal(client.session.localPublicKey + helloNonce, client.session.remotePublicKey);
      && client.session.decryptNonce == helloNonce
      && (sealed.None? ==> act == InvokeError(ProtocolErrorCode(HandshakeHelloEncrypt)) && client.step == ClientHandshake.Done)
      && (sealed.Some? ==> act == Write(sealed.value) && client.step == SendingHello)
  {
    act := client.Resume(na, START, helloNonce);
    act := client.Resume(na, Completion(NO_ERROR, 0, []), helloNonce);
  }

  /**
   * The server reads a hello that opens with its key pair, authenticates the
   * claimed key and answers with a boxed response.
   */
  method AnswerHello(na: Sodium, server: Server, hello: seq<byte>, ghost clientKey: seq<byte>,
                     ghost helloNonce: seq<byte>, replyNonce: seq<byte>, followupNonce: seq<byte>)
    returns (act: Action)
    requires na.Valid() && server.Valid() && server.step == ServerHandshake.Start
    requires |replyNonce| == NONCE && |followupNonce| == NONCE && |hello| == HandshakeHello.BUFFER_SIZE
    requires var plain := HandshakeHello.Open(na, hello, server.session.localPublicKey, server.session.localPrivateKey);
      && plain.Some?
      && HandshakeHello.PublicKeyField(plain.value) == clientKey
      && HandshakeHello.ReplyNonceField(plain.value) == helloNonce
    modifies server, server.session, server.session.helloBuffer, server.session.helloResponseBuffer
    ensures server.Valid()
    ensures var boxed := na.box(replyNonce + followupNonce, helloNonce, clientKey, server.session.localPrivateKey);
      && (server.auth(clientKey) && boxed.Some? ==>
            && act == Write(boxed.value) && server.step == SendingResponse
            && server.session.remotePublicKey == clientKey
            && server.session.decryptNonce == replyNonce && server.session.encryptNonce == followupNonce)
      && (!(server.auth(clientKey) && boxed.Some?) ==> act.Invoke? && server.step == ServerHandshake.Done)
  {
    act := server.Resume(na, START, replyNonce, followupNonce);
    act := server.Resume(na, Completion(NO_ERROR, |hello|, hello), replyNonce, followupNonce);
  }

  /**
   * The server's write completes, and the client reads a response that opens
   * under its decrypt nonce and adopts the two nonces it carries.
   */
  method FinishHandshake(na: Sodium, client: Client, server: Server, response: seq<byte>,
                         ghost reply: seq<byte>, ghost followup: seq<byte>)
    returns (clientAct: Action, serverAct: Action)
    requires na.Valid() && client.Valid() && server.Valid() && Separate(client.session, server.session)
    requires client.step == SendingHello && server.step == SendingResponse
    requires |response| == HandshakeResponse.BUFFER_SIZE
    requires var plain := HandshakeResponse.Open(na, response, client.session.decryptNonce,
                                                 client.session.remotePublicKey, client.session.localPrivateKey);
      && plain.Some?
      && HandshakeResponse.ReplyNonceField(plain.value) == reply
      && HandshakeResponse.FollowupNonceField(plain.value) == followup
    modifies client, client.session, client.session.helloBuffer, client.session.helloResponseBuffer
    modifies server, server.session, server.session.helloBuffer, server.session.helloResponseBuffer
    ensures client.Valid() && server.Valid()
    ensures clientAct == InvokeSuccess && serverAct == InvokeSuccess
    ensures client.session.encryptNonce == reply && client.session.decryptNonce == followup
    ensures server.session.remotePublicKey == old(server.session.remotePublicKey)
    ensures server.session.decryptNonce == old(server.session.decryptNonce)
    ensures server.session.encryptNonce == old(server.session.encryptNonce)
  {
    clientAct := client.Resume(na, Completion(NO_ERROR, HandshakeHello.BUFFER_SIZE, []), []);
    serverAct := server.Resume(na, Completion(NO_ERROR, |response|, []), [], []);
    clientAct := client.Resume(na, Completion(NO_ERROR, |response|, response), []);
  }

  /**
   * A full handshake.  It succeeds at both ends exactly when the hello
   * seals, the server accepts the client's key and the response boxes; then
   * the server knows the client's key and each side's encrypt nonce is the
   * other side's decrypt nonce.
   */
  method Handshake(na: Sodium, client: Client, server: Server,
                   helloNonce: seq<byte>, replyNonce: seq<byte>, followupNonce: seq<byte>)
    returns (clientAct: Action, serverAct: Action)
    requires na.Valid() && client.Valid() && server.Valid()
    requires client.step == ClientHandshake.Start && server.step == ServerHandshake.Start
    requires |helloNonce| == NONCE && |replyNonce| == NONCE && |followupNonce| == NONCE
    requires Separate(client.session, server.session)
    requires na.isKeyPair(client.session.localPublicKey, client.session.localPrivateKey)
    requires na.isKeyPair(server.session.localPublicKey, server.session.localPrivateKey)
    requires client.session.remotePublicKey == server.session.localPublicKey
    modifies client, client.session, client.session.helloBuffer, client.session.helloResponseBuffer
    modifies server, server.session, server.session.helloBuffer, server.session.helloResponseBuffer
    ensures client.Valid() && server.Valid()
    ensures var clientKey := client.session.localPublicKey;
            var sealed := na.seal(clientKey + helloNonce, server.session.localPublicKey);
            var boxed := na.box(replyNonce + followupNonce, helloNonce, clientKey, server.session.localPrivateKey);
      && (sealed.None? ==> clientAct == InvokeError(ProtocolErrorCode(HandshakeHelloEncrypt)))
      && (clientAct == InvokeSuccess <==> sealed.Some? && server.auth(clientKey) && boxed.Some?)
      && (serverAct == InvokeSuccess <==> sealed.Some? && server.auth(clientKey) && boxed.Some?)
    ensures clientAct == InvokeSuccess ==>
      && server.session.remotePublicKey == client.session.localPublicKey
      && client.session.encryptNonce == server.session.decryptNonce
      && client.session.decryptNonce == server.session.encryptNonce
  {
    var clientKey := client.session.localPublicKey;
    var serverKey := server.session.localPublicKey;
    clientAct := SendHello(na, client, helloNonce);
    if !clientAct.Write? {
      serverAct := server.Resume(na, START, replyNonce, followupNonce);
      return;
    }
    var hello := clientAct.data;
    HelloOpens(na, clientKey, helloNonce, serverKey, server.session.localPrivateKey);
    serverAct := AnswerHello(na, server, hello, clientKey, helloNonce, replyNonce, followupNonce);
    if !serverAct.Write? {
      return;
    }
    var response := serverAct.data;
    ResponseOpens(na, replyNonce, followupNonce, helloNonce, serverKey, server.session.localPrivateKey,
                  clientKey, client.session.localPrivateKey);
    clientAct, serverAct := FinishHandshake(na, client, server, response, replyNonce, followupNonce);
  }

  /** What one message exchange demands of the two ends. */
  ghost predicate Connected(writer: Writer, reader: Reader)
    reads writer, writer.session, reader, reader.session, reader.session.headerBuffer
  {
    && writer.Valid() && reader.Valid()
    && Separate(writer.session, reader.session)
    && writer.message != reader.messageBuffer
    && writer.message !in reader.session.Buffers() && reader.messageBuffer !in writer.session.Buffers()
    && writer.session.remotePublicKey == reader.session.localPublicKey
    && reader.session.remotePublicKey == writer.session.localPublicKey
    && writer.message.Length <= reader.messageBuffer.Length
  }

  /**
   * The reader's first two steps against the header the writer has sent:
   * it asks for a header, opens it and asks for the MAC.  The writer is not
   * touched.
   */
  method ReceiveHeader(na: Sodium, writer: Writer, reader: Reader, ghost plain: seq<byte>)
    returns (readerAct: Action)
    requires na.Valid() && Connected(writer, reader)
    requires writer.step == SendingHeader && reader.step == MessageReader.Start
    requires MessageHeader.Open(na, writer.session.headerBuffer[..], reader.session.decryptNonce,
                                reader.session.remotePublicKey, reader.session.localPrivateKey) == Some(plain)
    requires MessageHeader.DeclaredLength(plain) == writer.message.Length
    modifies reader, reader.session, reader.session.headerBuffer, reader.messageBuffer
    ensures Connected(writer, reader)
    ensures readerAct == Read(MAC) && reader.step == ReadingMac && reader.messageLength == writer.message.Length
    ensures reader.session.headerBuffer[..] == plain
    ensures reader.session.remotePublicKey == old(reader.session.remotePublicKey)
    ensures reader.session.decryptNonce == old(reader.session.decryptNonce)
    ensures reader.messageBuffer[..] == old(reader.messageBuffer[..])
  {
    var header := writer.session.headerBuffer[..];
    readerAct := reader.Resume(na, START);
    readerAct := reader.Resume(na, Completion(NO_ERROR, |header|, header));
  }

  /**
   * The second half: the writer sends MAC and ciphertext, the reader ratchets
   * its decrypt nonce to the header's followup nonce and opens the payload.
   */
  method DeliverBody(na: Sodium, writer: Writer, reader: Reader, ghost plaintext: seq<byte>)
    returns (writerAct: Action, readerAct: Action)
    requires na.Valid() && Connected(writer, reader)
    requires writer.step == SendingHeader && reader.step == ReadingMac
    requires reader.messageLength == writer.message.Length
    requires na.boxOpenDetached(writer.message[..], writer.session.mac,
                                MessageHeader.DataNonceField(reader.session.headerBuffer[..]),
                                reader.session.remotePublicKey, reader.session.localPrivateKey) == Some(plaintext)
    modifies writer, writer.session, writer.session.headerBuffer, writer.message
    modifies reader, reader.session, reader.session.headerBuffer, reader.messageBuffer
    ensures writer.Valid() && reader.Valid()
    ensures writerAct == WriteThenCall(old(writer.message[..])) && readerAct == Invoke(NO_ERROR, 0)
    ensures writer.session.remotePublicKey == old(writer.session.remotePublicKey)
    ensures reader.session.remotePublicKey == old(reader.session.remotePublicKey)
    ensures writer.session.encryptNonce == old(writer.session.encryptNonce)
    ensures reader.session.decryptNonce == MessageHeader.FollowupNonceField(old(reader.session.headerBuffer[..]))
    ensures reader.messageBuffer[..] == Splice(old(reader.messageBuffer[..]), 0, plaintext)
  {
    writerAct := writer.Resume(na, Completion(NO_ERROR, MessageHeader.BUFFER_SIZE, []), [], []);
    var mac := writerAct.data;
    readerAct := reader.Resume(na, Completion(NO_ERROR, |mac|, mac));
    writerAct := writer.Resume(na, Completion(NO_ERROR, |mac|, []), [], []);
    var ciphertext := writerAct.data;
    readerAct := reader.Resume(na, Completion(NO_ERROR, |ciphertext|, ciphertext));
  }

  /**
   * One message from a writer to a reader whose session holds the writer's
   * encrypt nonce as its decrypt nonce.  When both encryptions succeed, the
   * reader ends with the plaintext at the front of its buffer and reports
   * success, and both sides have ratcheted to the same fresh nonce.
   */
  method Deliver(na: Sodium, writer: Writer, reader: Reader, dataNonce: seq<byte>, followupNonce: seq<byte>)
    returns (writerAct: Action, readerAct: Action)
    requires na.Valid() && Connected(writer, reader)
    requires writer.step == MessageWriter.Start && reader.step == MessageReader.Start
    requires |dataNonce| == NONCE && |followupNonce| == NONCE
    requires na.isKeyPair(writer.session.localPublicKey, writer.session.localPrivateKey)
    requires na.isKeyPair(reader.session.localPublicKey, reader.session.localPrivateKey)
    requires writer.session.encryptNonce == reader.session.decryptNonce
    modifies writer, writer.session, writer.session.headerBuffer, writer.message
    modifies reader, reader.session, reader.session.headerBuffer, reader.messageBuffer
    ensures writer.Valid() && reader.Valid()
    ensures writer.message.Length >= MessageHeader.UINT32_LIMIT ==>
      writerAct == Invoke(ProtocolErrorCode(MessageTooLarge), 0)
    ensures writer.message.Length < MessageHeader.UINT32_LIMIT ==>
      var header := PlainHeader(old(writer.session.headerBuffer[..]), dataNonce, followupNonce, writer.message.Length);
      var d := na.boxDetached(old(writer.message[..]), dataNonce,
                              writer.session.remotePublicKey, writer.session.localPrivateKey);
      var h := MessageHeader.Box(na, header, old(writer.session.encryptNonce),
                                 writer.session.remotePublicKey, writer.session.localPrivateKey);
      && (d.None? ==> writerAct == Invoke(ProtocolErrorCode(MessageEncrypt), 0))
      && (d.Some? && h.None? ==> writerAct == Invoke(ProtocolErrorCode(MessageHeaderEncrypt), 0))
      && (d.Some? && h.Some? ==>
            && writerAct == WriteThenCall(d.value.ciphertext)
            && readerAct == Invoke(NO_ERROR, 0)
            && reader.messageBuffer[..writer.message.Length] == old(writer.message[..])
            && reader.messageBuffer[writer.message.Length..] == old(reader.messageBuffer[writer.message.Length..])
            && writer.session.encryptNonce == followupNonce
            && reader.session.decryptNonce == followupNonce)
  {
    ghost var message := writer.message[..];
    ghost var nonce := writer.session.encryptNonce;
    writerAct := writer.Resume(na, START, dataNonce, followupNonce);
    if !writerAct.Write? {
      readerAct := reader.Resume(na, START);
      return;
    }
    ghost var plainHeader := PlainHeader(old(writer.session.headerBuffer[..]), dataNonce, followupNonce, |message|);
    MessageHeader.RoundTrip(na, plainHeader, nonce,
                            writer.session.localPublicKey, writer.session.localPrivateKey,
                            reader.session.localPublicKey, reader.session.localPrivateKey);
    ghost var plain := MessageHeader.Open(na, writer.session.headerBuffer[..], nonce, reader.session.remotePublicKey,
                                          reader.session.localPrivateKey).value;
    readerAct := ReceiveHeader(na, writer, reader, plain);
    writerAct, readerAct := DeliverBody(na, writer, reader, message);
  }
}
