/**
 * The handshake hello: SEAL bytes of overhead, then the initiator's public
 * key and a reply nonce.  It is sealed (anonymous encryption) to the
 * responder's public key, in place over its own buffer.
 */
module HandshakeHello {
  import opened Wrappers
  import opened Bytes
  import opened Crypto

  const PUBLIC_KEY_OFFSET: nat := SEAL
  const REPLY_NONCE_OFFSET: nat := PUBLIC_KEY_OFFSET + PUBLICKEY
  const BUFFER_SIZE: nat := REPLY_NONCE_OFFSET + NONCE
  const DATA_SIZE: nat := BUFFER_SIZE - SEAL

  /** The plaintext region: the last DATA_SIZE bytes of the buffer. */
  function DataSpan(buf: seq<byte>): (r: seq<byte>)
    requires |buf| == BUFFER_SIZE
    ensures |r| == DATA_SIZE
  {
    buf[BUFFER_SIZE - DATA_SIZE..]
  }

  function PublicKeyField(buf: seq<byte>): (r: seq<byte>)
    requires |buf| == BUFFER_SIZE
    ensures |r| == PUBLICKEY
  {
    buf[PUBLIC_KEY_OFFSET..PUBLIC_KEY_OFFSET + PUBLICKEY]
  }

  function ReplyNonceField(buf: seq<byte>): (r: seq<byte>)
    requires |buf| == BUFFER_SIZE
    ensures |r| == NONCE
  {
    buf[REPLY_NONCE_OFFSET..REPLY_NONCE_OFFSET + NONCE]
  }

  /** The two fields are disjoint, lie in the buffer and make up the plaintext region. */
  lemma Layout(buf: seq<byte>)
    requires |buf| == BUFFER_SIZE
    ensures BUFFER_SIZE == SEAL + PUBLICKEY + NONCE && DATA_SIZE == PUBLICKEY + NONCE
    ensures Disjoint(PUBLIC_KEY_OFFSET, PUBLICKEY, REPLY_NONCE_OFFSET, NONCE)
    ensures REPLY_NONCE_OFFSET + NONCE == BUFFER_SIZE
    ensures DataSpan(buf) == PublicKeyField(buf) + ReplyNonceField(buf)
  {
  }

  /** What `encrypt_to(remote_key)` writes over the whole buffer, if the primitive succeeds. */
  function Seal(na: Sodium, buf: seq<byte>, remoteKey: seq<byte>): (r: Option<seq<byte>>)
    requires na.Valid() && |buf| == BUFFER_SIZE
    ensures r.Some? ==> |r.value| == BUFFER_SIZE
  {
    na.seal(DataSpan(buf), remoteKey)
  }

  /** The buffer after a successful `decrypt`: the overhead as it was, then the plaintext. */
  function Open(na: Sodium, buf: seq<byte>, pk: seq<byte>, sk: seq<byte>): (r: Option<seq<byte>>)
    requires na.Valid() && |buf| == BUFFER_SIZE
    ensures r.Some? <==> na.sealOpen(buf, pk, sk).Some?
    ensures r.Some? ==> |r.value| == BUFFER_SIZE && r.value[..SEAL] == buf[..SEAL]
    ensures r.Some? ==> DataSpan(r.value) == na.sealOpen(buf, pk, sk).value
  {
    match na.sealOpen(buf, pk, sk)
    case None => None
    case Some(plain) => Some(buf[..SEAL] + plain)
  }

  /**
   * Sealing to a recipient and opening with the recipient's key pair gives
   * back the public key and the reply nonce that were written.
   */
  lemma RoundTrip(na: Sodium, buf: seq<byte>, pk: seq<byte>, sk: seq<byte>)
    requires na.Valid() && |buf| == BUFFER_SIZE && na.isKeyPair(pk, sk)
    requires Seal(na, buf, pk).Some?
    ensures Open(na, Seal(na, buf, pk).value, pk, sk).Some?
    ensures PublicKeyField(Open(na, Seal(na, buf, pk).value, pk, sk).value) == PublicKeyField(buf)
    ensures ReplyNonceField(Open(na, Seal(na, buf, pk).value, pk, sk).value) == ReplyNonceField(buf)
  {
    var plain := Open(na, Seal(na, buf, pk).value, pk, sk).value;
    assert DataSpan(plain) == DataSpan(buf);
    Layout(buf);
    Layout(plain);
  }

  /** `set_public_key(local_key)`: writes the key into its field and nothing else. */
  method SetPublicKey(buf: array<byte>, key: seq<byte>)
    requires buf.Length == BUFFER_SIZE && |key| == PUBLICKEY
    modifies buf
    ensures buf[..] == Splice(old(buf[..]), PUBLIC_KEY_OFFSET, key)
    ensures PublicKeyField(buf[..]) == key
  {
    CopyInto(buf, PUBLIC_KEY_OFFSET, key);
  }

  /** `generate_reply_nonce()`: `random` stands for the bytes `randombytes_buf` produces. */
  method GenerateReplyNonce(buf: array<byte>, random: seq<byte>)
    requires buf.Length == BUFFER_SIZE && |random| == NONCE
    modifies buf
    ensures buf[..] == Splice(old(buf[..]), REPLY_NONCE_OFFSET, random)
    ensures ReplyNonceField(buf[..]) == random
  {
    CopyInto(buf, REPLY_NONCE_OFFSET, random);
  }

  /** `copy_reply_nonce(result)`: the bytes of the reply-nonce field. */
  method CopyReplyNonce(buf: array<byte>) returns (result: seq<byte>)
    requires buf.Length == BUFFER_SIZE
    ensures |result| == NONCE
    ensures result == ReplyNonceField(buf[..])
  {
    result := buf[REPLY_NONCE_OFFSET..REPLY_NONCE_OFFSET + NONCE];
  }

  /**
   * `encrypt_to(remote_key)`: seals the plaintext region using only the
   * recipient's public key and overwrites the whole buffer with the result.
   */
  method EncryptTo(na: Sodium, buf: array<byte>, remoteKey: seq<byte>) returns (ok: bool)
    requires na.Valid() && buf.Length == BUFFER_SIZE
    modifies buf
    ensures ok <==> Seal(na, old(buf[..]), remoteKey).Some?
    ensures ok ==> buf[..] == Seal(na, old(buf[..]), remoteKey).value
    ensures !ok ==> buf[..] == old(buf[..])
  {
    var sealed := na.seal(buf[BUFFER_SIZE - DATA_SIZE..], remoteKey);
    if sealed.Some? {
      CopyInto(buf, 0, sealed.value);
      ok := true;
    } else {
      ok := false;
    }
  }

  /**
   * `decrypt(data, receiver_public_key, receiver_private_key)`: opens the
   * whole buffer and writes the plaintext back into the plaintext region;
   * `ok` is false, and the buffer untouched, when opening fails.
   */
  method Decrypt(na: Sodium, buf: array<byte>, pk: seq<byte>, sk: seq<byte>) returns (ok: bool)
    requires na.Valid() && buf.Length == BUFFER_SIZE
    modifies buf
    ensures ok <==> Open(na, old(buf[..]), pk, sk).Some?
    ensures ok ==> buf[..] == Open(na, old(buf[..]), pk, sk).value
    ensures !ok ==> buf[..] == old(buf[..])
  {
    var plain := na.sealOpen(buf[..], pk, sk);
    if plain.Some? {
      CopyInto(buf, BUFFER_SIZE - DATA_SIZE, plain.value);
      ok := true;
    } else {
      ok := false;
    }
  }
}
