/**
 * The libsodium primitives the protocol calls, as a record of functions.
 *
 * Nothing here models the cryptography. A `Sodium` value stands for one
 * implementation of the primitives; `Valid()` states the laws the protocol
 * relies on (ciphertext lengths and the round trip under matching key
 * pairs), and every operation that needs them requires them.  A primitive
 * that reports failure (a non-zero return) yields `None`.
 */
module Crypto {
  import opened Wrappers
  import opened Bytes

  /** crypto_box_PUBLICKEYBYTES */
  const PUBLICKEY: nat := 32
  /** crypto_box_SECRETKEYBYTES */
  const SECRETKEY: nat := 32
  /** crypto_box_NONCEBYTES */
  const NONCE: nat := 24
  /** crypto_box_MACBYTES */
  const MAC: nat := 16
  /** crypto_box_SEALBYTES: an ephemeral public key and a MAC */
  const SEAL: nat := PUBLICKEY + MAC

  /** The two outputs of `crypto_box_detached`. */
  datatype Detached = Detached(ciphertext: seq<byte>, mac: seq<byte>)

  datatype Sodium = Sodium(
    /** `sk` is the private half of the key pair whose public half is `pk` */
    isKeyPair: (seq<byte>, seq<byte>) -> bool,
    /** crypto_box_easy(m, n, pk, sk): MAC ‖ ciphertext */
    box: (seq<byte>, seq<byte>, seq<byte>, seq<byte>) -> Option<seq<byte>>,
    /** crypto_box_open_easy(c, n, pk, sk) */
    boxOpen: (seq<byte>, seq<byte>, seq<byte>, seq<byte>) -> Option<seq<byte>>,
    /** crypto_box_seal(m, pk): anonymous, only the recipient's public key */
    seal: (seq<byte>, seq<byte>) -> Option<seq<byte>>,
    /** crypto_box_seal_open(c, pk, sk) */
    sealOpen: (seq<byte>, seq<byte>, seq<byte>) -> Option<seq<byte>>,
    /** crypto_box_detached(m, n, pk, sk): ciphertext of |m| bytes and a separate MAC */
    boxDetached: (seq<byte>, seq<byte>, seq<byte>, seq<byte>) -> Option<Detached>,
    /** crypto_box_open_detached(c, mac, n, pk, sk) */
    boxOpenDetached: (seq<byte>, seq<byte>, seq<byte>, seq<byte>, seq<byte>) -> Option<seq<byte>>
  )
  {
    /** crypto_box_easy writes MAC + |m| bytes; crypto_box_open_easy MAC fewer. */
    ghost predicate BoxLengths()
    {
      && (forall m, n, pk, sk :: box(m, n, pk, sk).Some? ==> |box(m, n, pk, sk).value| == MAC + |m|)
      && (forall c, n, pk, sk :: boxOpen(c, n, pk, sk).Some? ==>
            MAC <= |c| && |boxOpen(c, n, pk, sk).value| == |c| - MAC)
    }

    /** A box from A to B opens at B with A's public key and B's private key. */
    ghost predicate BoxRoundTrip()
    {
      forall m, n, pkA, skA, pkB, skB ::
        isKeyPair(pkA, skA) && isKeyPair(pkB, skB) && box(m, n, pkB, skA).Some? ==>
          boxOpen(box(m, n, pkB, skA).value, n, pkA, skB) == Some(m)
    }

    ghost predicate SealLengths()
    {
      && (forall m, pk :: seal(m, pk).Some? ==> |seal(m, pk).value| == SEAL + |m|)
      && (forall c, pk, sk :: sealOpen(c, pk, sk).Some? ==>
            SEAL <= |c| && |sealOpen(c, pk, sk).value| == |c| - SEAL)
    }

    /** A sealed box opens with the recipient's key pair. */
    ghost predicate SealRoundTrip()
    {
      forall m, pk, sk :: isKeyPair(pk, sk) && seal(m, pk).Some? ==>
        sealOpen(seal(m, pk).value, pk, sk) == Some(m)
    }

    ghost predicate DetachedLengths()
    {
      && (forall m, n, pk, sk :: boxDetached(m, n, pk, sk).Some? ==>
            |boxDetached(m, n, pk, sk).value.ciphertext| == |m| &&
            |boxDetached(m, n, pk, sk).value.mac| == MAC)
      && (forall c, t, n, pk, sk :: boxOpenDetached(c, t, n, pk, sk).Some? ==>
            |boxOpenDetached(c, t, n, pk, sk).value| == |c|)
    }

    ghost predicate DetachedRoundTrip()
    {
      forall m, n, pkA, skA, pkB, skB ::
        isKeyPair(pkA, skA) && isKeyPair(pkB, skB) && boxDetached(m, n, pkB, skA).Some? ==>
          boxOpenDetached(boxDetached(m, n, pkB, skA).value.ciphertext,
                          boxDetached(m, n, pkB, skA).value.mac, n, pkA, skB) == Some(m)
    }

    ghost predicate Valid()
    {
      BoxLengths() && BoxRoundTrip() && SealLengths() && SealRoundTrip() &&
      DetachedLengths() && DetachedRoundTrip()
    }
  }
}
