/**
 * The message header: a MAC, then the data nonce, the followup nonce and the
 * 32-bit message length, stored little endian on every host.  It is boxed
 * in place over its own buffer.
 */
module MessageHeader {
  import opened Wrappers
  import opened Bytes
  import opened Crypto
  import opened Endianness

  /** sizeof(uint32_t) */
  const LENGTH_SIZE: nat := 4
  /** One more than the largest uint32_t. */
  const UINT32_LIMIT: nat := 0x1_0000_0000

  const DATA_NONCE_OFFSET: nat := MAC
  const FOLLOWUP_NONCE_OFFSET: nat := DATA_NONCE_OFFSET + NONCE
  const MESSAGE_LENGTH_OFFSET: nat := FOLLOWUP_NONCE_OFFSET + NONCE
  const BUFFER_SIZE: nat := MESSAGE_LENGTH_OFFSET + LENGTH_SIZE
  const DATA_SIZE: nat := BUFFER_SIZE - MAC

  /** The plaintext region: the last DATA_SIZE bytes of the buffer. */
  function DataSpan(buf: seq<byte>): (r: seq<byte>)
    requires |buf| == BUFFER_SIZE
    ensures |r| == DATA_SIZE
  {
    buf[BUFFER_SIZE - DATA_SIZE..]
  }

  function DataNonceField(buf: seq<byte>): (r: seq<byte>)
    requires |buf| == BUFFER_SIZE
    ensures |r| == NONCE
  {
    buf[DATA_NONCE_OFFSET..DATA_NONCE_OFFSET + NONCE]
  }

  function FollowupNonceField(buf: seq<byte>): (r: seq<byte>)
    requires |buf| == BUFFER_SIZE
    ensures |r| == NONCE
  {
    buf[FOLLOWUP_NONCE_OFFSET..FOLLOWUP_NONCE_OFFSET + NONCE]
  }

  function MessageLengthField(buf: seq<byte>): (r: seq<byte>)
    requires |buf| == BUFFER_SIZE
    ensures |r| == LENGTH_SIZE
  {
    buf[MESSAGE_LENGTH_OFFSET..MESSAGE_LENGTH_OFFSET + LENGTH_SIZE]
  }

  /** The length the header declares: its length field read as little endian. */
  function DeclaredLength(buf: seq<byte>): (n: nat)
    requires |buf| == BUFFER_SIZE
    ensures n < UINT32_LIMIT
  {
    assert Pow256(LENGTH_SIZE) == UINT32_LIMIT;
    FromLittleEndian(MessageLengthField(buf))
  }

  /**
   * The offsets and sizes: the three fields are pairwise disjoint, lie in the
   * buffer, and make up the plaintext region, which is its last DATA_SIZE bytes.
   */
  lemma Layout(buf: seq<byte>)
    requires |buf| == BUFFER_SIZE
    ensures DATA_NONCE_OFFSET == MAC && FOLLOWUP_NONCE_OFFSET == MAC + NONCE
    ensures MESSAGE_LENGTH_OFFSET == MAC + 2 * NONCE
    ensures BUFFER_SIZE == MAC + 2 * NONCE + 4 && DATA_SIZE == BUFFER_SIZE - MAC
    ensures Disjoint(DATA_NONCE_OFFSET, NONCE, FOLLOWUP_NONCE_OFFSET, NONCE)
    ensures Disjoint(DATA_NONCE_OFFSET, NONCE, MESSAGE_LENGTH_OFFSET, LENGTH_SIZE)
    ensures Disjoint(FOLLOWUP_NONCE_OFFSET, NONCE, MESSAGE_LENGTH_OFFSET, LENGTH_SIZE)
    ensures MESSAGE_LENGTH_OFFSET + LENGTH_SIZE == BUFFER_SIZE
    ensures DataSpan(buf) == DataNonceField(buf) + FollowupNonceField(buf) + MessageLengthField(buf)
  {
  }

  /** Writing a length field and reading it back gives the length. */
  lemma {:induction false} LengthRoundTrip(buf: seq<byte>, n: nat)
    requires |buf| == BUFFER_SIZE && n < UINT32_LIMIT
    ensures DeclaredLength(Splice(buf, MESSAGE_LENGTH_OFFSET, LittleEndianBytes(LENGTH_SIZE, n))) == n
  {
    assert Pow256(LENGTH_SIZE) == UINT32_LIMIT;
    FromToLittleEndian(LENGTH_SIZE, n);
  }

  /** What `encrypt_to(nonce, public_key, private_key)` writes over the whole buffer. */
  function Box(na: Sodium, buf: seq<byte>, nonce: seq<byte>, pk: seq<byte>, sk: seq<byte>): (r: Option<seq<byte>>)
    requires na.Valid() && |buf| == BUFFER_SIZE
    ensures r.Some? ==> |r.value| == BUFFER_SIZE
  {
    na.box(DataSpan(buf), nonce, pk, sk)
  }

  /** The buffer after a successful `decrypt`: the MAC bytes as they were, then the plaintext. */
  function Open(na: Sodium, buf: seq<byte>, nonce: seq<byte>, pk: seq<byte>, sk: seq<byte>): (r: Option<seq<byte>>)
    requires na.Valid() && |buf| == BUFFER_SIZE
    ensures r.Some? <==> na.boxOpen(buf, nonce, pk, sk).Some?
    ensures r.Some? ==> |r.value| == BUFFER_SIZE && r.value[..MAC] == buf[..MAC]
    ensures r.Some? ==> DataSpan(r.value) == na.boxOpen(buf, nonce, pk, sk).value
  {
    match na.boxOpen(buf, nonce, pk, sk)
    case None => None
    case Some(plain) => Some(buf[..MAC] + plain)
  }

  /**
   * Boxing from A to B under a nonce and opening under the same nonce with
   * A's public key and B's private key restores the data nonce, the followup
   * nonce and the declared length.
   */
  lemma RoundTrip(na: Sodium, buf: seq<byte>, nonce: seq<byte>,
                  pkA: seq<byte>, skA: seq<byte>, pkB: seq<byte>, skB: seq<byte>)
    requires na.Valid() && |buf| == BUFFER_SIZE
    requires na.isKeyPair(pkA, skA) && na.isKeyPair(pkB, skB)
    requires Box(na, buf, nonce, pkB, skA).Some?
    ensures Open(na, Box(na, buf, nonce, pkB, skA).value, nonce, pkA, skB).Some?
    ensures DataSpan(Open(na, Box(na, buf, nonce, pkB, skA).value, nonce, pkA, skB).value) == DataSpan(buf)
    ensures DataNonceField(Open(na, Box(na, buf, nonce, pkB, skA).value, nonce, pkA, skB).value) == DataNonceField(buf)
    ensures FollowupNonceField(Open(na, Box(na, buf, nonce, pkB, skA).value, nonce, pkA, skB).value) == FollowupNonceField(buf)
    ensures DeclaredLength(Open(na, Box(na, buf, nonce, pkB, skA).value, nonce, pkA, skB).value) == DeclaredLength(buf)
  {
    var plain := Open(na, Box(na, buf, nonce, pkB, skA).value, nonce, pkA, skB).value;
    assert DataSpan(plain) == DataSpan(buf);
    Layout(buf);
    Layout(plain);
    assert MessageLengthField(plain) == MessageLengthField(buf);
  }

  /** `generate_data_nonce()`: `random` stands for the bytes `randombytes_buf` produces. */
  method GenerateDataNonce(buf: array<byte>, random: seq<byte>)
    requires buf.Length == BUFFER_SIZE && |random| == NONCE
    modifies buf
    ensures buf[..] == Splice(old(buf[..]), DATA_NONCE_OFFSET, random)
    ensures DataNonceField(buf[..]) == random
  {
    CopyInto(buf, DATA_NONCE_OFFSET, random);
  }

  /** `generate_followup_nonce()` */
  method GenerateFollowupNonce(buf: array<byte>, random: seq<byte>)
    requires buf.Length == BUFFER_SIZE && |random| == NONCE
    modifies buf
    ensures buf[..] == Splice(old(buf[..]), FOLLOWUP_NONCE_OFFSET, random)
    ensures FollowupNonceField(buf[..]) == random
  {
    CopyInto(buf, FOLLOWUP_NONCE_OFFSET, random);
  }

  /**
   * `set_message_length(length)`: stores the host's representation of
   * `byte_swap_if_big_endian(length)` into the four length bytes, which is
   * the little-endian encoding of `length` on either host.
   */
  method SetMessageLength(buf: array<byte>, host: Endian, length: nat)
    requires buf.Length == BUFFER_SIZE && length < UINT32_LIMIT
    modifies buf
    ensures buf[..] == Splice(old(buf[..]), MESSAGE_LENGTH_OFFSET, LittleEndianBytes(LENGTH_SIZE, length))
    ensures DeclaredLength(buf[..]) == length
  {
    assert Pow256(LENGTH_SIZE) == UINT32_LIMIT;
    var swapped := ByteSwapIfBigEndian(host, LENGTH_SIZE, length);
    var source := Representation(host, LENGTH_SIZE, swapped);
    StoredBytesAreLittleEndian(host, LENGTH_SIZE, length);
    CopyInto(buf, MESSAGE_LENGTH_OFFSET, source);
    LengthRoundTrip(old(buf[..]), length);
  }

  /**
   * `message_length()`: reads the four length bytes as a host scalar and
   * byte-swaps it on a big-endian host; on either host the result is the
   * declared length.
   */
  method MessageLength(buf: array<byte>, host: Endian) returns (length: nat)
    requires buf.Length == BUFFER_SIZE
    ensures length == DeclaredLength(buf[..])
    ensures length < UINT32_LIMIT
  {
    var field := buf[MESSAGE_LENGTH_OFFSET..MESSAGE_LENGTH_OFFSET + LENGTH_SIZE];
    var raw := ValueOf(host, field);
    length := ByteSwapIfBigEndian(host, LENGTH_SIZE, raw);
    LoadedValueIsLittleEndian(host, field);
  }

  /** `copy_data_nonce(result)` */
  method CopyDataNonce(buf: array<byte>) returns (result: seq<byte>)
    requires buf.Length == BUFFER_SIZE
    ensures |result| == NONCE
    ensures result == DataNonceField(buf[..])
  {
    result := buf[DATA_NONCE_OFFSET..DATA_NONCE_OFFSET + NONCE];
  }

  /** `copy_followup_nonce(result)` */
  method CopyFollowupNonce(buf: array<byte>) returns (result: seq<byte>)
    requires buf.Length == BUFFER_SIZE
    ensures |result| == NONCE
    ensures result == FollowupNonceField(buf[..])
  {
    result := buf[FOLLOWUP_NONCE_OFFSET..FOLLOWUP_NONCE_OFFSET + NONCE];
  }

  /** `encrypt_to(nonce, public_key, private_key)`: overwrites the whole buffer with MAC ‖ ciphertext. */
  method EncryptTo(na: Sodium, buf: array<byte>, nonce: seq<byte>, pk: seq<byte>, sk: seq<byte>) returns (ok: bool)
    requires na.Valid() && buf.Length == BUFFER_SIZE
    modifies buf
    ensures ok <==> Box(na, old(buf[..]), nonce, pk, sk).Some?
    ensures ok ==> buf[..] == Box(na, old(buf[..]), nonce, pk, sk).value
    ensures !ok ==> buf[..] == old(buf[..])
  {
    var boxed := na.box(buf[BUFFER_SIZE - DATA_SIZE..], nonce, pk, sk);
    if boxed.Some? {
      CopyInto(buf, 0, boxed.value);
      ok := true;
    } else {
      ok := false;
    }
  }

  /** `decrypt(data, nonce, public_key, private_key)`: in place; the buffer is untouched on failure. */
  method Decrypt(na: Sodium, buf: array<byte>, nonce: seq<byte>, pk: seq<byte>, sk: seq<byte>) returns (ok: bool)
    requires na.Valid() && buf.Length == BUFFER_SIZE
    modifies buf
    ensures ok <==> Open(na, old(buf[..]), nonce, pk, sk).Some?
    ensures ok ==> buf[..] == Open(na, old(buf[..]), nonce, pk, sk).value
    ensures !ok ==> buf[..] == old(buf[..])
  {
    var plain := na.boxOpen(buf[..], nonce, pk, sk);
    if plain.Some? {
      CopyInto(buf, BUFFER_SIZE - DATA_SIZE, plain.value);
      ok := true;
    } else {
      ok := false;
    }
  }
}
