# asio_sodium secure channel, modelled in Dafny

asio_sodium runs an authenticated, encrypted channel over a byte stream.
The initiator (client) knows the responder's (server's) public key in advance.
It sends a *hello* sealed to that key, carrying its own public key and a fresh reply nonce.
The server authenticates the claimed key. It answers with a *response* boxed under the hello's nonce, carrying two fresh nonces.
Each side then holds an `encrypt_nonce` that equals the peer's `decrypt_nonce`.
Every message travels as:
- a boxed *header*: data nonce, followup nonce and a 32-bit little-endian length;
- a detached MAC;
- the ciphertext of the payload, encrypted in place.

Each message ratchets both nonces to the header's followup nonce.

The model has three layers, one Dafny module per source file:

- **Wire codecs**: `HandshakeHello`, `HandshakeResponse` and `MessageHeader`.
  - Each has its layout constants, field accessors, and field-scoped writers on an `array<byte>`.
  - Each has `encrypt_to`, which overwrites the whole buffer, and `decrypt`, which writes the plaintext back into the data region or reports failure.
  - `Endianness` models `byte_swap_if_big_endian`. The host byte order is a parameter.
  - `Errors` models the error enum, its category and `make_error_code`.
- **Session and handshakes**.
  - `Session.SessionData` is a class with the nonces, keys, MAC and the three wire buffers.
  - `ClientHandshake.Client` and `ServerHandshake.Server` are the coroutines, written as a step enum.
- **Message path**: `MessageWriter.Writer` and `MessageReader.Reader`, in the same coroutine style.

Each coroutine is a class with a `step` field and a `Resume` method, which is its `operator()`.
- `Resume` takes the completion of the last I/O operation: an error code, a byte count and the bytes a read delivered.
- It returns the next `Transport.Action`: the I/O operation it starts or the callback it calls.
- A ghost counter records how many times the caller's callback has been called. `Valid()` keeps that count at most 1, reached exactly when the machine is `Done`.

The collaborators become parameters:
- **libsodium.** The primitives are the fields of a `Crypto.Sodium` record, one function per primitive. Its `Valid()` states the length laws and the round trip under matching key pairs, and every member that uses the primitives requires it.
- **`randombytes_buf`.** Random nonces are method parameters.
- **Sockets.** They are actions and completions.

`Channel` runs the two ends against each other: the full handshake, then one message from a writer to a reader.

Sizes are libsodium's concrete values for `crypto_box`:
- public key 32, secret key 32, nonce 24, MAC 16, seal overhead 48;
- so the hello is 104 bytes, the response 64 and the header 68.

Where the source's behaviour may surprise a reader, the model follows the code:
- The reader advances `decrypt_nonce` in `decrypt_message`, after the MAC and ciphertext have been read, not right after the header opens. So a `message_too_large` does not advance it, and a `message_decrypt` does.
- The reader's success callback receives byte count 0, not the message length.
- On a failed `process_hello` or `make_hello_response`, `server_handshake` calls `on_error_` with the completion's own code, which is not an error. `handshake_hello_decrypt`, `handshake_authentication` and `handshake_response_encrypt` are never produced.

Two defects are corrected rather than followed; the findings below show each as written and as corrected:
- The error enum starts at 0, so the client cannot report a seal failure. The model numbers the error codes from 1 throughout.
- The writer has no length check, so a message of 2^32 bytes or more is misframed. The model's writer refuses it with `message_too_large`.

## Model

| member | source | states |
|---|---|---|
| Bytes.CopyInto | include/asio_sodium/detail/handshake_hello.hpp:122-126 | `std::copy` of a sequence into an array at an offset: that range holds the sequence and every other byte is unchanged |
| Endianness.ByteSwapIfBigEndian | include/asio_sodium/detail/endianness.hpp:43-79 | the result fits in the scalar's width |
| Endianness.LittleEndianHostIsIdentity | include/asio_sodium/detail/endianness.hpp:46-47 | on a little-endian host the scalar is returned unchanged |
| Endianness.OneByteUnchanged | include/asio_sodium/detail/endianness.hpp:59-60 | a one-byte scalar is returned unchanged on either host |
| Endianness.BigEndianHostReverses | include/asio_sodium/detail/endianness.hpp:61-69 | on a big-endian host the little-endian bytes of the result are those of the argument reversed |
| Endianness.ByteSwapInvolution | include/asio_sodium/detail/endianness.hpp:59-69 | applying the function twice gives the scalar back, on either host and width |
| Endianness.StoredBytesAreLittleEndian | include/asio_sodium/detail/endianness.hpp:21-22 | the bytes a host stores for the swapped value are the little-endian encoding of the value, whatever the host |
| Endianness.LoadedValueIsLittleEndian | include/asio_sodium/detail/message_header.hpp:196-209 | loading bytes on any host and swapping gives the value they encode little endian |
| Endianness.FromToLittleEndian | include/asio_sodium/detail/message_header.hpp:153-164 | decoding the little-endian encoding of a value that fits gives the value |
| Endianness.ToFromLittleEndian | include/asio_sodium/detail/message_header.hpp:196-209 | encoding the value of some bytes at their width gives the bytes back |
| Errors.Ordinal | include/asio_sodium/errors.hpp:4-15 | every kind's value is below ten |
| Errors.FromOrdinal | include/asio_sodium/errors.hpp:25 | `static_cast<error>(ev)` names the kind whose value is `ev` |
| Errors.OrdinalRoundTrip | include/asio_sodium/errors.hpp:4-15 | value and kind determine each other: the ten kinds form a fixed enumeration |
| Errors.MessagesDistinct | include/asio_sodium/errors.hpp:27-46 | two different kinds have different messages |
| Errors.CATEGORY_NAME | include/asio_sodium/errors.hpp:21-23 | the category's name, `asio_sodium errors` |
| Errors.Message | include/asio_sodium/errors.hpp:26-47 | the text of each kind's case in `error_category::message`; `Errors.MessagesDistinct` proves no two kinds share one |
| Errors.MakeErrorCode | include/asio_sodium/errors.hpp:57-65 | the code is in the asio_sodium category and carries the kind's ordinal |
| Errors.CategoryMessage | include/asio_sodium/errors.hpp:24-47 | a message exists exactly for the values 0 to 9 |
| Errors.CategoryMessageOfMadeCode | include/asio_sodium/errors.hpp:24-65 | the category's message for a made code is its kind's text |
| Errors.HelloEncryptCodeIsNotAnError | include/asio_sodium/errors.hpp:4-5 | as written, the code of `handshake_hello_encrypt` converts to false, and every other kind's code converts to true |
| Errors.ProtocolErrorCode | include/asio_sodium/errors.hpp:59-65 | corrected: every protocol code is an error and carries the ordinal plus one |
| Errors.ProtocolCategoryMessage | include/asio_sodium/errors.hpp:24-47 | corrected: a message exists exactly for the values 1 to 10 |
| Errors.ProtocolErrorCodeCorrect | include/asio_sodium/errors.hpp:24-65 | corrected: every code is an error, reads back its kind's message, and distinct kinds give distinct codes |
| HandshakeHello.DataSpan | include/asio_sodium/detail/handshake_hello.hpp:42-43 | the last DATA_SIZE (56) bytes of the buffer |
| HandshakeHello.PublicKeyField | include/asio_sodium/detail/handshake_hello.hpp:48-51 | the 32 bytes at the public key offset |
| HandshakeHello.ReplyNonceField | include/asio_sodium/detail/handshake_hello.hpp:58-61 | the 24 bytes at the reply nonce offset |
| HandshakeHello.Layout | include/asio_sodium/detail/handshake_hello.hpp:14-66 | buffer = SEAL + key + nonce; the key and nonce fields are disjoint, end at the buffer's end and make up the data span |
| HandshakeHello.Seal | include/asio_sodium/detail/handshake_hello.hpp:155-169 | a successful seal produces exactly one buffer's worth |
| HandshakeHello.Open | include/asio_sodium/detail/handshake_hello.hpp:92-118 | opens exactly when `crypto_box_seal_open` does; keeps the overhead bytes and puts the plaintext in the data span |
| HandshakeHello.RoundTrip | include/asio_sodium/detail/handshake_hello.hpp:92-169 | sealing to a key pair's public half and opening with that pair restores the public key and the reply nonce |
| HandshakeHello.SetPublicKey | include/asio_sodium/detail/handshake_hello.hpp:120-127 | writes exactly the key into its field and changes no other byte |
| HandshakeHello.GenerateReplyNonce | include/asio_sodium/detail/handshake_hello.hpp:129-133 | writes the random bytes into the reply-nonce field and changes no other byte |
| HandshakeHello.CopyReplyNonce | include/asio_sodium/detail/handshake_hello.hpp:145-153 | returns exactly the reply-nonce field |
| HandshakeHello.EncryptTo | include/asio_sodium/detail/handshake_hello.hpp:155-169 | true exactly when sealing the data span to the recipient key succeeds, and the buffer is then the sealed box |
| HandshakeHello.Decrypt | include/asio_sodium/detail/handshake_hello.hpp:92-118 | true exactly when the buffer opens, and the buffer is then the opened hello |
| HandshakeResponse.DataSpan | include/asio_sodium/detail/handshake_response.hpp:57-58 | the last DATA_SIZE (48) bytes of the buffer, after the MAC |
| HandshakeResponse.ReplyNonceField | include/asio_sodium/detail/handshake_response.hpp:63-66 | the 24 bytes at the reply nonce offset |
| HandshakeResponse.FollowupNonceField | include/asio_sodium/detail/handshake_response.hpp:73-76 | the last 24 bytes of the buffer |
| HandshakeResponse.Layout | include/asio_sodium/detail/handshake_response.hpp:28-81 | buffer = MAC + 2 nonces; the followup field (the last NONCE bytes) is the region at MAC + NONCE; it is disjoint from the reply field, and the two make up the data span |
| HandshakeResponse.Box | include/asio_sodium/detail/handshake_response.hpp:177-197 | a successful box produces exactly one buffer's worth |
| HandshakeResponse.Open | include/asio_sodium/detail/handshake_response.hpp:107-135 | opens exactly when `crypto_box_open_easy` does; keeps the MAC bytes and puts the plaintext in the data span |
| HandshakeResponse.RoundTrip | include/asio_sodium/detail/handshake_response.hpp:107-197 | boxing from A to B and opening at B under the same nonce restores both nonce fields |
| HandshakeResponse.GenerateReplyNonce | include/asio_sodium/detail/handshake_response.hpp:137-140 | changes only the reply field, which then holds the random bytes |
| HandshakeResponse.GenerateFollowupNonce | include/asio_sodium/detail/handshake_response.hpp:142-145 | changes only the followup field, which then holds the random bytes |
| HandshakeResponse.CopyReplyNonce | include/asio_sodium/detail/handshake_response.hpp:152-160 | returns exactly the reply field |
| HandshakeResponse.CopyFollowupNonce | include/asio_sodium/detail/handshake_response.hpp:167-175 | returns exactly the followup field |
| HandshakeResponse.EncryptTo | include/asio_sodium/detail/handshake_response.hpp:177-197 | true exactly when boxing succeeds, and the whole buffer is then the box |
| HandshakeResponse.Decrypt | include/asio_sodium/detail/handshake_response.hpp:107-135 | true exactly when the buffer opens, and the buffer is then the opened response |
| MessageHeader.DataSpan | include/asio_sodium/detail/message_header.hpp:51-52 | the last DATA_SIZE (52) bytes of the header, after the MAC |
| MessageHeader.DataNonceField | include/asio_sodium/detail/message_header.hpp:57-60 | the 24 bytes at the data nonce offset |
| MessageHeader.FollowupNonceField | include/asio_sodium/detail/message_header.hpp:67-70 | the 24 bytes at the followup nonce offset |
| MessageHeader.MessageLengthField | include/asio_sodium/detail/message_header.hpp:77-80 | the 4 bytes of the `uint32_t` length field |
| MessageHeader.DeclaredLength | include/asio_sodium/detail/message_header.hpp:196-209 | the length field, read little endian, is below 2^32 |
| MessageHeader.Layout | include/asio_sodium/detail/message_header.hpp:15-85 | the data nonce is at MAC, the followup nonce at MAC + NONCE and the length at MAC + 2·NONCE; buffer = MAC + 2·NONCE + 4; the fields are pairwise disjoint and make up the data span |
| MessageHeader.LengthRoundTrip | include/asio_sodium/detail/message_header.hpp:153-209 | writing n into the length field and reading it back gives n |
| MessageHeader.Box | include/asio_sodium/detail/message_header.hpp:211-232 | a successful box produces exactly one buffer's worth |
| MessageHeader.Open | include/asio_sodium/detail/message_header.hpp:111-139 | opens exactly when `crypto_box_open_easy` does; keeps the MAC bytes and puts the plaintext in the data span |
| MessageHeader.RoundTrip | include/asio_sodium/detail/message_header.hpp:111-232 | boxing and opening with matching key pairs under the same nonce restores the data nonce, the followup nonce and the declared length |
| MessageHeader.GenerateDataNonce | include/asio_sodium/detail/message_header.hpp:141-145 | changes only the data-nonce field, which then holds the random bytes |
| MessageHeader.GenerateFollowupNonce | include/asio_sodium/detail/message_header.hpp:147-151 | changes only the followup field, which then holds the random bytes |
| MessageHeader.SetMessageLength | include/asio_sodium/detail/message_header.hpp:153-164 | changes only the 4 length bytes, to the little-endian encoding of the length on either host; the declared length is then the length |
| MessageHeader.MessageLength | include/asio_sodium/detail/message_header.hpp:196-209 | returns the declared length on either host |
| MessageHeader.CopyDataNonce | include/asio_sodium/detail/message_header.hpp:171-179 | returns exactly the data-nonce field |
| MessageHeader.CopyFollowupNonce | include/asio_sodium/detail/message_header.hpp:186-194 | returns exactly the followup field |
| MessageHeader.EncryptTo | include/asio_sodium/detail/message_header.hpp:211-232 | true exactly when boxing succeeds, and the whole buffer is then the box |
| MessageHeader.Decrypt | include/asio_sodium/detail/message_header.hpp:111-139 | true exactly when the buffer opens, and the buffer is then the opened header |
| Session.SessionData.constructor | include/asio_sodium/detail/session_data.hpp:17-27 | keeps the three keys; allocates fresh buffers of the codec sizes |
| Session.SessionData.WithoutPeer | include/asio_sodium/detail/session_data.hpp:29-37 | keeps the local key pair; allocates fresh buffers of the codec sizes |
| Session.SessionData.MakeHello | include/asio_sodium/detail/session_data.hpp:39-47 | `decrypt_nonce` becomes the reply nonce; the hello is sealed from local key + reply nonce to the remote key; on failure the data span still holds key + nonce |
| Session.SessionData.ProcessHello | include/asio_sodium/detail/session_data.hpp:71-97 | accepted exactly when the hello opens and `auth` accepts the claimed key; the remote key and `encrypt_nonce` then become the claimed key and the reply nonce, and otherwise both are unchanged |
| Session.SessionData.MakeHelloResponse | include/asio_sodium/detail/session_data.hpp:99-129 | `decrypt_nonce` becomes the reply nonce; the response is boxed under the old `encrypt_nonce`; `encrypt_nonce` becomes the followup nonce exactly when boxing succeeds |
| Session.SessionData.ProcessHelloResponse | include/asio_sodium/detail/session_data.hpp:155-173 | succeeds exactly when the response opens under `decrypt_nonce`; the nonces then become the reply and followup fields, and otherwise both nonces and the buffer are unchanged |
| Session.SessionData.ProcessHeader | include/asio_sodium/detail/session_data.hpp:256-270 | returns the declared length exactly when the header opens under `decrypt_nonce`; no nonce changes |
| MessageReader.Reader.constructor | include/asio_sodium/detail/message_reader.hpp:18-29 | a fresh machine at its first step over the given session and buffer |
| MessageReader.Reader.ProcessHeader | include/asio_sodium/detail/message_reader.hpp:70-89 | `message_header_decrypt` when the header does not open; otherwise the declared length is recorded, and the result is `message_too_large` exactly when it exceeds the buffer |
| MessageReader.Reader.DecryptMessage | include/asio_sodium/detail/message_reader.hpp:111-139 | `decrypt_nonce` becomes the header's followup nonce whatever the outcome; only the first `message_length` bytes are opened, in place, under the header's data nonce and the received MAC; `message_decrypt` on failure |
| MessageReader.Reader.Resume | include/asio_sodium/detail/message_reader.hpp:31-58 | a transport error goes straight to the callback; otherwise read header, then process it; failures stop before any further read; then read the MAC, then exactly `message_length` bytes into the buffer prefix, then decrypt; success reports no error and 0 bytes |
| MessageWriter.WireLengthAsWritten | include/asio_sodium/detail/message_writer.hpp:61 | as written: the announced length is the size modulo 2^32, which differs from the size whenever the size is 2^32 or more |
| MessageWriter.LengthAsWrittenMisframes | include/asio_sodium/detail/message_writer.hpp:61 | as written: a message of exactly 2^32 bytes is announced as empty |
| MessageWriter.PlainHeader | include/asio_sodium/detail/message_writer.hpp:58-61 | the built header holds the two fresh nonces and the message length, with the MAC slot untouched |
| MessageWriter.Writer.constructor | include/asio_sodium/detail/message_writer.hpp:19-30 | a fresh machine at its first step over the given session and message |
| MessageWriter.Writer.EncryptMessageInPlaceAndWriteHeader | include/asio_sodium/detail/message_writer.hpp:55-98 | an oversized message is refused with `message_too_large` before any change. Otherwise the header is built; the payload is detached-boxed in place under the data nonce, with the MAC in the session (`message_encrypt` on failure). The header is boxed under the current `encrypt_nonce` (`message_header_encrypt` on failure). `encrypt_nonce` becomes the followup nonce only when both succeed |
| MessageWriter.Writer.Resume | include/asio_sodium/detail/message_writer.hpp:32-51 | a transport error goes straight to the callback; otherwise encrypt, then write the header buffer, then the MAC, then the whole message, with the last completion handed to the caller |
| ClientHandshake.Client.constructor | include/asio_sodium/detail/client_handshake.hpp:23-36 | a fresh machine at its first step over the given session |
| ClientHandshake.Client.Resume | include/asio_sodium/detail/client_handshake.hpp:38-64 | a transport error calls `on_error_(ec)`. Otherwise: connect; make the hello (`decrypt_nonce` = reply nonce; a seal failure reports `handshake_hello_encrypt`); send it; read the response; process it under `decrypt_nonce` (`handshake_response_decrypt` with both nonces unchanged on failure; reply and followup fields adopted on success); then `on_success_`. The callback count rises by one exactly on a terminal action |
| ClientHandshake.Client.SendHelloAsWritten | include/asio_sodium/detail/client_handshake.hpp:49-55 | as written, after a failed seal `if (ec)` does not fire: the client goes on to send the hello buffer without calling back, and that buffer's data span is the local key and reply nonce in the clear |
| ServerHandshake.Server.constructor | include/asio_sodium/detail/server_handshake.hpp:17-30 | a fresh machine at its first step over the given session and authenticator |
| ServerHandshake.Server.Resume | include/asio_sodium/detail/server_handshake.hpp:33-59 | a transport error calls `on_error_(ec, bytes)`. Otherwise: read the hello; process it, then make the response; either failure calls `on_error_` with the completion's own, non-error code and sends nothing; send the response; `on_success_` only after that write completes |
| Channel.HelloOpens | include/asio_sodium/detail/session_data.hpp:39-97 | a hello sealed to the server opens with the server's key pair and claims the client's key and reply nonce |
| Channel.ResponseOpens | include/asio_sodium/detail/session_data.hpp:99-173 | a response boxed from server to client opens at the client under the same nonce and carries both nonces |
| Channel.SendHello | include/asio_sodium/detail/client_handshake.hpp:48-55 | after connecting, the client's `decrypt_nonce` is the reply nonce, and it either sends the hello sealed to the server's key or reports `handshake_hello_encrypt` and stops. Its remote key is unchanged |
| Channel.AnswerHello | include/asio_sodium/detail/server_handshake.hpp:42-56 | given a hello that opens and claims a client key and reply nonce, the server sends the boxed response exactly when it accepts the key and the box succeeds. It then holds the client's key, `decrypt_nonce` = reply nonce and `encrypt_nonce` = followup nonce; otherwise it calls `on_error_` and stops |
| Channel.FinishHandshake | include/asio_sodium/detail/client_handshake.hpp:55-62 | once the server's write completes, both sides report success. The client adopts the response's reply nonce as `encrypt_nonce` and its followup nonce as `decrypt_nonce`. The server's nonces and remote key are unchanged |
| Channel.Handshake | include/asio_sodium/detail/session_data.hpp:39-173 | client and server both succeed exactly when the hello seals, the server accepts the client's key and the response boxes. Then the server holds the client's key, client `encrypt_nonce` = server `decrypt_nonce`, and client `decrypt_nonce` = server `encrypt_nonce` |
| Channel.ReceiveHeader | include/asio_sodium/detail/message_reader.hpp:41-48 | the reader opens the writer's header, records its length and asks for the MAC, changing no nonce |
| Channel.DeliverBody | include/asio_sodium/detail/message_writer.hpp:100-128 | MAC and ciphertext reach the reader, which ratchets to the followup nonce and ends with the plaintext in its buffer prefix |
| Channel.Deliver | include/asio_sodium/detail/message_writer.hpp:55-98 | from synchronised nonces and honest keys, when both encryptions succeed, the reader reports success. Its buffer prefix then holds the original plaintext, the rest is unchanged, and sender `encrypt_nonce` = receiver `decrypt_nonce` = the fresh followup nonce |

## Left out

- `crypto_socket.hpp`: an asio façade of ownership and wiring with no protocol logic. It is not part of this model.
- asio's asynchronous I/O and the `reenter`/`yield` coroutines. I/O requests are `Transport.Action` values, and completions are `Transport.Completion` values fed to `Resume`.
- A successful read is assumed to deliver exactly the requested number of bytes, which is what `async_read` promises. It is a precondition of each `Resume`.
- Concurrency between a reader and a writer on one socket: each machine runs alone.
- The cryptography itself. libsodium is represented only by the length laws and round trips in `Crypto.Sodium.Valid()`.
  - Sealing is deterministic in the model for given inputs. Real `crypto_box_seal` draws an ephemeral key.
  - When a primitive fails, the model leaves its output buffer unchanged, while libsodium leaves it unspecified.
- `randombytes_buf`: fresh nonces are caller-supplied parameters.
- `session_data::encrypt_message` and `session_data::decrypt_message`: unused duplicates of the message path that disagree with the writer and reader. They negate a success result, copy the followup nonce from ciphertext, and swap MAC and ciphertext arguments. The writer's and reader's versions are modelled instead.
- `session_data`'s `send_*` and `await_*` helpers are only asio calls. They appear as the `Write` and `Read` actions of the machines that call them.
- Wiping the private key on destruction: a TODO in the source, absent from the code.
- Session.SessionData.constructor: the source leaves nonces, MAC and buffers uninitialised, so the model promises nothing about their contents.
- `&message_[0]` on an empty span, which the writer and reader evaluate for zero-length messages, is not modelled: a zero-length message is an empty sequence.
- MessageWriter.Writer.EncryptMessageInPlaceAndWriteHeader: it models the corrected writer with the length check. The unchecked conversion as written is `MessageWriter.WireLengthAsWritten`.
- ClientHandshake.Client.Resume: it reports a seal failure, and a response that does not open, with the renumbered code (`Errors.ProtocolErrorCode`, value ordinal+1). As written, the seal failure is ignored and `handshake_response_decrypt` has value 4. The as-written step is `ClientHandshake.Client.SendHelloAsWritten`; see the first finding.
- MessageReader.Reader.ProcessHeader: it reports `message_header_decrypt` and `message_too_large` with the renumbered codes 7 and 8, not the source's 6 and 7. Fixing the first finding means numbering the enum from 1, which shifts every value, and the model uses that one numbering throughout so that distinct kinds keep distinct values.
- MessageReader.Reader.DecryptMessage: it reports `message_decrypt` with the renumbered code 10, not the source's 9, for the same reason.
- MessageReader.Reader.Resume: every protocol error it passes to the callback carries the renumbered code (ordinal+1), for the same reason.
- MessageWriter.Writer.EncryptMessageInPlaceAndWriteHeader: it reports `message_encrypt`, `message_header_encrypt` and `message_too_large` with the renumbered codes 9, 6 and 8, not the source's 8, 5 and 7, for the same reason.
- MessageWriter.Writer.Resume: every protocol error it passes to the callback carries the renumbered code (ordinal+1), for the same reason.

## Findings

| source | as written | input that shows it | evidently intended | confidence | as-written member | corrected member |
|---|---|---|---|---|---|---|
| include/asio_sodium/detail/client_handshake.hpp:48-54 | `error` starts at 0, so `make_error_code(error::handshake_hello_encrypt)` has value 0 and converts to `false`; the `if (ec)` after `make_hello()` does not fire | `crypto_box_seal` fails in the client's `make_hello`: the client goes on to `send_hello` with a buffer that was never sealed (its data span holds the client's public key and reply nonce in the clear) | report `handshake_hello_encrypt` through `on_error_` and stop | high (not executed) | ClientHandshake.Client.SendHelloAsWritten | Errors.ProtocolErrorCodeCorrect |
| include/asio_sodium/detail/message_writer.hpp:61 | `set_message_length(message_.length())` narrows the span's length to `uint32_t` without a check | a message of 2^32 bytes: the header announces length 0, then 2^32 ciphertext bytes follow, which the reader takes as the start of the next header | refuse with `message_too_large` before any encryption work: the wire length field is a `uint32_t` (message_header.hpp:39,154), and the reader already refuses oversize lengths with that error (message_reader.hpp:85) | medium (not executed) | MessageWriter.LengthAsWrittenMisframes | MessageWriter.Writer.EncryptMessageInPlaceAndWriteHeader |
