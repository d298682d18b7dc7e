/**
 * The handshake response: a MAC, then a reply nonce and a followup nonce.
 * It is boxed (authenticated public-key encryption with an explicit nonce)
 * in place over its own buffer.
 */
module HandshakeResponse {
  import opened Wrappers
  import opened Bytes
  import opened Crypto

  const REPLY_NONCE_OFFSET: nat := MAC
  const FOLLOWUP_NONCE_OFFSET: nat := REPLY_NONCE_OFFSET + NONCE
  const BUFFER_SIZE: nat := FOLLOWUP_NONCE_OFFSET + NONCE
  const DATA_SIZE: nat := BUFFER_SIZE - MAC

  /** The plaintext region: the last DATA_SIZE bytes of the buffer. */
  function DataSpan(buf: seq<byte>): (r: seq<byte>)
    requires |buf| == BUFFER_SIZE
    ensures |r| == DATA_SIZE
  {
    buf[BUFFER_SIZE - DATA_SIZE..]
  }

  function ReplyNonceField(buf: seq<byte>): (r: seq<byte>)
    requires |buf| == BUFFER_SIZE
    ensures |r| == NONCE
  {
    buf[REPLY_NONCE_OFFSET..REPLY_NONCE_OFFSET + NONCE]
  }

  /** `followup_nonce_field()`: the last NONCE bytes of the buffer. */
  function FollowupNonceField(buf: seq<byte>): (r: seq<byte>)
    requires |buf| == BUFFER_SIZE
    ensures |r| == NONCE
  {
    buf[BUFFER_SIZE - NONCE..]
  }

  /**
   * The followup field, taken as the last NONCE bytes, is the region at
   * FOLLOWUP_NONCE_OFFSET; it is disjoint from the reply field, and the two
   * make up the plaintext region.
   */
  lemma Layout(buf: seq<byte>)
    requires |buf| == BUFFER_SIZE
    ensures BUFFER_SIZE == MAC + 2 * NONCE && DATA_SIZE == 2 * NONCE
    ensures FollowupNonceField(buf) == buf[FOLLOWUP_NONCE_OFFSET..FOLLOWUP_NONCE_OFFSET + NONCE]
    ensures Disjoint(REPLY_NONCE_OFFSET, NONCE, FOLLOWUP_NONCE_OFFSET, NONCE)
    ensures DataSpan(buf) == ReplyNonceField(buf) + FollowupNonceField(buf)
  {
  }

  /** What `encrypt_to(nonce, remote_key, private_key)` writes over the whole buffer. */
  function Box(na: Sodium, buf: seq<byte>, nonce: seq<byte>, pk: seq<byte>, sk: seq<byte>): (r: Option<seq<byte>>)
    requires na.Valid() && |buf| == BUFFER_SIZE
    ensures r.Some? ==> |r.value| == BUFFER_SIZE
  {
    na.box(DataSpan(buf), nonce, pk, sk)
  }

  /** The buffer after a successful `decrypt`: the MAC bytes as they were, then the plaintext. */
  function Open(na: Sodium, buf: seq<byte>, nonce: seq<byte>, pk: seq<byte>, sk: seq<byte>): (r: Option<seq<byte>>)
    requires na.Valid() && |buf| == BUFFER_SIZE
    ensures r.Some? <==> na.boxOpen(buf, nonce, pk, sk).Some?
    ensures r.Some? ==> |r.value| == BUFFER_SIZE && r.value[..MAC] == buf[..MAC]
    ensures r.Some? ==> DataSpan(r.value) == na.boxOpen(buf, nonce, pk, sk).value
  {
    match na.boxOpen(buf, nonce, pk, sk)
    case None => None
    case Some(plain) => Some(buf[..MAC] + plain)
  }

  /**
   * Boxing from A to B under a nonce and opening under the same nonce with
   * A's public key and B's private key restores both nonce fields.
   */
  lemma RoundTrip(na: Sodium, buf: seq<byte>, nonce: seq<byte>,
                  pkA: seq<byte>, skA: seq<byte>, pkB: seq<byte>, skB: seq<byte>)
    requires na.Valid() && |buf| == BUFFER_SIZE
    requires na.isKeyPair(pkA, skA) && na.isKeyPair(pkB, skB)
    requires Box(na, buf, nonce, pkB, skA).Some?
    ensures Open(na, Box(na, buf, nonce, pkB, skA).value, nonce, pkA, skB).Some?
    ensures ReplyNonceField(Open(na, Box(na, buf, nonce, pkB, skA).value, nonce, pkA, skB).value) == ReplyNonceField(buf)
    ensures FollowupNonceField(Open(na, Box(na, buf, nonce, pkB, skA).value, nonce, pkA, skB).value) == FollowupNonceField(buf)
  {
    var plain := Open(na, Box(na, buf, nonce, pkB, skA).value, nonce, pkA, skB).value;
    assert DataSpan(plain) == DataSpan(buf);
    Layout(buf);
    Layout(plain);
  }

  /** `generate_reply_nonce()`: `random` stands for the bytes `randombytes_buf` produces. */
  method GenerateReplyNonce(buf: array<byte>, random: seq<byte>)
    requires buf.Length == BUFFER_SIZE && |random| == NONCE
    modifies buf
    ensures buf[..] == Splice(old(buf[..]), REPLY_NONCE_OFFSET, random)
    ensures ReplyNonceField(buf[..]) == random
  {
    CopyInto(buf, REPLY_NONCE_OFFSET, random);
  }

  /** `generate_followup_nonce()` */
  method GenerateFollowupNonce(buf: array<byte>, random: seq<byte>)
    requires buf.Length == BUFFER_SIZE && |random| == NONCE
    modifies buf
    ensures buf[..] == Splice(old(buf[..]), FOLLOWUP_NONCE_OFFSET, random)
    ensures FollowupNonceField(buf[..]) == random
  {
    CopyInto(buf, FOLLOWUP_NONCE_OFFSET, random);
  }

  /** `copy_reply_nonce(result)` */
  method CopyReplyNonce(buf: array<byte>) returns (result: seq<byte>)
    requires buf.Length == BUFFER_SIZE
    ensures |result| == NONCE
    ensures result == ReplyNonceField(buf[..])
  {
    result := buf[REPLY_NONCE_OFFSET..REPLY_NONCE_OFFSET + NONCE];
  }

  /** `copy_followup_nonce(result)` */
  method CopyFollowupNonce(buf: array<byte>) returns (result: seq<byte>)
    requires buf.Length == BUFFER_SIZE
    ensures |result| == NONCE
    ensures result == FollowupNonceField(buf[..])
  {
    result := buf[BUFFER_SIZE - NONCE..];
  }

  /** `encrypt_to(nonce, remote_key, private_key)`: overwrites the whole buffer with MAC ‖ ciphertext. */
  method EncryptTo(na: Sodium, buf: array<byte>, nonce: seq<byte>, pk: seq<byte>, sk: seq<byte>) returns (ok: bool)
    requires na.Valid() && buf.Length == BUFFER_SIZE
    modifies buf
    ensures ok <==> Box(na, old(buf[..]), nonce, pk, sk).Some?
    ensures ok ==> buf[..] == Box(na, old(buf[..]), nonce, pk, sk).value
    ensures !ok ==> buf[..] == old(buf[..])
  {
    var boxed := na.box(buf[BUFFER_SIZE - DATA_SIZE..], nonce, pk, sk);
    if boxed.Some? {
      CopyInto(buf, 0, boxed.value);
      ok := true;
    } else {
      ok := false;
    }
  }

  /** `decrypt(data, nonce, remote_key, private_key)`: in place; the buffer is untouched on failure. */
  method Decrypt(na: Sodium, buf: array<byte>, nonce: seq<byte>, pk: seq<byte>, sk: seq<byte>) returns (ok: bool)
    requires na.Valid() && buf.Length == BUFFER_SIZE
    modifies buf
    ensures ok <==> Open(na, old(buf[..]), nonce, pk, sk).Some?
    ensures ok ==> buf[..] == Open(na, old(buf[..]), nonce, pk, sk).value
    ensures !ok ==> buf[..] == old(buf[..])
  {
    var plain := na.boxOpen(buf[..], nonce, pk, sk);
    if plain.Some? {
      CopyInto(buf, BUFFER_SIZE - DATA_SIZE, plain.value);
      ok := true;
    } else {
      ok := false;
    }
  }
}
