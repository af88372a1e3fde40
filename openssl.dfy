/**
 * The parts of PHP's OpenSSL and hash extensions that the handler calls. Their
 * internals (AES-256-CBC, HMAC-SHA256, the random generator) are not modelled:
 * the library is a value whose functions are arbitrary, and the facts the
 * handler relies on are predicates over that value that callers of the lemmas
 * assume.
 */
module OpenSsl {
  import opened Types

  /** Key length of AES-256. */
  const KeyLength := 32

  /** IV length of CBC mode: one AES block. */
  const IvLength := 16

  /** Block size of AES, the unit of CBC padding. */
  const BlockSize := 16

  /** Output length of HMAC-SHA256 in raw form. */
  const MacLength := 32

  /**
   * The cipher and MAC calls, with `false` returns mapped to None:
   * encrypt(key, iv, data) is openssl_encrypt(data, 'aes-256-cbc', key, OPENSSL_RAW_DATA, iv),
   * decrypt(key, iv, data) is openssl_decrypt with the same arguments, and
   * hmac(key, message) is hash_hmac('sha256', message, key, true).
   */
  datatype Crypto = Crypto(
    encrypt: (Bytes, Bytes, Bytes) -> Option<Bytes>,
    decrypt: (Bytes, Bytes, Bytes) -> Option<Bytes>,
    hmac: (Bytes, Bytes) -> Bytes)

  /**
   * What the handler needs of the library: a raw SHA-256 HMAC is 32 bytes long,
   * and with a full-length key and IV, decryption undoes a successful encryption.
   */
  ghost predicate Sound(lib: Crypto)
  {
    && (forall key, message :: |lib.hmac(key, message)| == MacLength)
    && (forall key, iv, data
          | |key| == KeyLength && |iv| == IvLength && lib.encrypt(key, iv, data).Some?
          :: lib.decrypt(key, iv, lib.encrypt(key, iv, data).value) == Some(data))
  }

  /** CBC with PKCS#7 padding: the ciphertext is the data padded up to the next whole block. */
  ghost predicate PadsToBlocks(lib: Crypto)
  {
    forall key, iv, data | lib.encrypt(key, iv, data).Some? ::
      |lib.encrypt(key, iv, data).value| == (|data| / BlockSize + 1) * BlockSize
  }

  /**
   * The outcome of one call openssl_random_pseudo_bytes(n, $strong): the bytes, or
   * None for `false`, and the value the call left in $strong.
   */
  datatype Draw = Draw(bytes: Option<Bytes>, strong: bool) {

    /** The generator's own promise: when it returns bytes, it returns n of them. */
    predicate Yields(n: nat)
    {
      bytes.Some? ==> |bytes.value| == n
    }

    /** The handler's test for a usable draw: bytes were returned and they are cryptographically strong. */
    predicate Usable()
    {
      bytes.Some? && strong
    }
  }
}
