# CipherX encryption handler, modelled in Dafny

This project models `CipherX\Handler`, PHP's encrypt-then-MAC wrapper around
AES-256-CBC and HMAC-SHA256. A handler holds a 32-byte key and a mutable 16-byte
IV. `encrypt` returns the base64 text of `IV(16) || ciphertext || MAC(32)`,
where the MAC is the HMAC of `IV || ciphertext`. `decrypt` decodes that text
strictly and rejects anything shorter than 48 bytes. It then recomputes the MAC
and decrypts only when the MAC matches, using the IV found in the envelope.
`setIv` replaces the IV that later encryptions use.

The length check rejects only envelopes under 48 bytes. A 48-byte envelope has
an empty ciphertext. It still goes through the MAC check, and the cipher then
decides the result (`DecryptionFailed` when the cipher refuses it). The model
follows this.

Files:

- `types.dfy` (module `Types`): bytes as integers 0..255 and an `Option` type.
- `base64.dfy` (module `Base64`): a concrete RFC 4648 section 4 encoder and a
  strict decoder. The module proves that they are inverse bijections between
  byte strings and canonical base64 text.
- `openssl.dfy` (module `OpenSsl`): the library calls as a value `Crypto`.
  It holds `openssl_encrypt`, `openssl_decrypt` and raw `hash_hmac('sha256')`
  as arbitrary functions. Lemmas assume two predicates about them: `Sound`
  (a MAC is 32 bytes, and decryption undoes encryption for a 32-byte key and a
  16-byte IV) and `PadsToBlocks` (PKCS#7 ciphertext length). It also defines
  `Draw`, the outcome of one `openssl_random_pseudo_bytes(n, $strong)` call.
- `handler.dfy` (module `CipherX`): the error kinds, the envelope frame, and the
  class `Handler`. The class has `const lib`, `var key` and `var iv`.
  Construction and `SetIv` are methods that change the fields.
  `Encrypt` and `Decrypt` are functions that only read them.
  `Decrypt` reads `key` alone, so the IV field cannot influence it.

Inputs that the source takes from its environment are parameters here. The
random generator's answers are the `keyDraw` and `ivDraw` arguments of
`Handler.Create`. The OpenSSL functions are the handler's `lib`.

## Model

| member | source | states |
|---|---|---|
| Base64.Encode | src/Handler.php:55 | the base64 text of n bytes is 4 characters for every started group of 3 bytes |
| Base64.Decode | src/Handler.php:68-71 | strict decoding accepts only text made of whole 4-character groups |
| Base64.DecodeEncode | src/Handler.php:68-71 | strict decoding of an encoding gives back exactly the encoded bytes |
| Base64.EncodeDecode | src/Handler.php:68-71 | of the model's canonical decoder (stricter than PHP's, see Left out): whatever it accepts is the encoding of the bytes it returns |
| Base64.DecodeIsInverse | src/Handler.php:68-71 | of the model's canonical decoder (stricter than PHP's, see Left out): decoding s succeeds with b if and only if s is the encoding of b |
| Base64.EncodeKnownAnswers | src/Handler.php:55 | the encoder uses the standard alphabet and padding: "Man" gives "TWFu", "Ma" gives "TWE=", "M" gives "TQ==", bytes 251, 255 give "+/8=" |
| CipherX.GenerateKey | src/Handler.php:120-127 | a key is produced exactly when the generator returned bytes flagged strong; it is those 32 bytes; otherwise KeyGenerationFailed |
| CipherX.GenerateIv | src/Handler.php:135-142 | an IV is produced exactly when the generator returned bytes flagged strong; it is those 16 bytes; otherwise IvGenerationFailed |
| CipherX.Handler.Create | src/Handler.php:21-35 | a supplied key that is not 32 bytes fails with InvalidKey; with no key, a weak or failed draw fails with KeyGenerationFailed; after the key, a weak or failed IV draw fails with IvGenerationFailed; otherwise a fresh handler holds the supplied key unchanged (or the drawn one) and the drawn IV, with 32- and 16-byte lengths |
| CipherX.Split | src/Handler.php:82-84 | a decoded envelope of at least 48 bytes splits into a 16-byte IV, a 32-byte MAC and a ciphertext of length n - 48, and the three concatenate back to the envelope |
| CipherX.SplitJoin | src/Handler.php:82-84 | splitting IV ++ ciphertext ++ MAC recovers the three parts for any ciphertext |
| CipherX.Handler.Encrypt | src/Handler.php:44-56 | fails with EncryptionFailed exactly when the cipher fails; otherwise the text decodes to IV ++ ciphertext ++ HMAC(key, IV ++ ciphertext), with the held key and IV; reads the fields without changing them |
| CipherX.Handler.Decrypt | src/Handler.php:66-98 | non-base64 input gives InvalidBase64 and input decoding to under 48 bytes gives TooShort, whatever the primitives do; HmacMismatch exactly when the trailing 32 bytes are not the HMAC of the rest; for an authentic envelope of at least 48 bytes the result is the decryption primitive's answer (DecryptionFailed when it fails) on the ciphertext with the IV from the envelope; does not read the IV field |
| CipherX.Handler.SetIv | src/Handler.php:106-112 | an IV that is not 16 bytes fails with InvalidIv and leaves the IV; a 16-byte IV replaces it; the key never changes |
| CipherX.RoundTrip | src/Handler.php:44-97 | whatever a handler encrypts, every handler with the same library and key decrypts back to the same data, whatever IV it holds |
| CipherX.EnvelopeStartsWithIv | src/Handler.php:52-55 | every envelope begins with the IV held at encryption time, so after SetIv(v) with 16 bytes it begins with v |
| CipherX.ForgedMacRejected | src/Handler.php:86-90 | an envelope made of a genuine IV and ciphertext with any other 32-byte MAC is rejected with HmacMismatch |
| CipherX.EnvelopeLength | src/Handler.php:46-55 | with CBC padding the decoded envelope is 48 bytes plus the data padded to whole 16-byte blocks: at least 64 bytes, and exactly 64 for data under 16 bytes |
| CipherX.RoundTripAcrossSetIv | src/Handler.php:82-97 | SetIv(v), Encrypt, SetIv(w), Decrypt returns the original data for any w, or EncryptionFailed when the cipher fails; a wrongly sized IV is refused and the previous one is used |

## Left out

- The `extension_loaded('openssl')` check in the constructor: it is about the PHP environment, not about the envelope.
- Exception message texts and `openssl_error_string()`: errors are the `Error` constructors only.
- AES-256-CBC and HMAC-SHA256 themselves: they are library code. The model assumes only the `Sound` and `PadsToBlocks` predicates.
- The constant-time behaviour of `hash_equals`: timing cannot be expressed, so the MAC check is plain sequence equality.
- CipherX.GenerateKey, CipherX.GenerateIv: from PHP 7.4 on (which the typed properties require), `openssl_random_pseudo_bytes` throws its own exception on failure and always sets `$strong` to true when it returns. So a real generator failure never reaches `KeyGenerationFailed` or `IvGenerationFailed`; the model keeps those branches because the source tests for them.
- Randomness of `openssl_random_pseudo_bytes`: its result is a parameter, assumed to have the requested length when it returns bytes.
- Handler.Create: the PHP constructor throws; here a static method returns a `Result`, because a Dafny constructor cannot fail.
- Base64.Decode: PHP's `base64_decode($data, true)` is laxer than this decoder. It skips spaces, tabs and line breaks, accepts a last group without its `=` padding, and ignores non-zero bits dropped by padding. This model rejects all of these, following canonical RFC 4648 decoding.
- CipherX.ForgedMacRejected: tamper detection is proved only for a replaced MAC. Detecting a changed IV or ciphertext, or a wrong key, depends on HMAC being unforgeable, which an arbitrary `hmac` function does not promise.
- The race on the shared IV when several callers use one handler at once: the model is sequential.
