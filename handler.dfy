/**
 * The CipherX encryption handler: an encrypt-then-MAC envelope around
 * AES-256-CBC and HMAC-SHA256. A handler holds a 32-byte key and a 16-byte IV;
 * `Encrypt` produces base64 text of `IV || ciphertext || MAC`, where the MAC is
 * the HMAC of `IV || ciphertext`, and `Decrypt` checks that MAC before it
 * decrypts, with the IV found in the envelope.
 */
module CipherX {
  import opened Types
  import opened OpenSsl
  import Base64

  /** The exceptions the handler throws, one constructor per distinct cause. */
  datatype Error =
    | InvalidKey           // supplied key is not 32 bytes
    | KeyGenerationFailed  // no strong random key
    | IvGenerationFailed   // no strong random IV
    | InvalidIv            // IV given to SetIv is not 16 bytes
    | EncryptionFailed     // openssl_encrypt returned false
    | InvalidBase64        // envelope is not strict base64
    | TooShort             // decoded envelope cannot hold an IV and a MAC
    | HmacMismatch         // stored MAC differs from the recomputed one
    | DecryptionFailed     // openssl_decrypt returned false

  /** A value, or the error the source throws instead of returning it. */
  datatype Result<+T> = Ok(value: T) | Err(error: Error) {

    predicate IsFailure()
    {
      Err?
    }

    function PropagateFailure<U>(): Result<U>
      requires Err?
    {
      Err(error)
    }

    function Extract(): T
      requires Ok?
    {
      value
    }
  }

  /** Completion of an operation that returns nothing, or the error it throws. */
  datatype Outcome = Pass | Fail(error: Error)

  /** The shortest decoded envelope: an IV and a MAC around an empty ciphertext. */
  const MinEnvelopeLength := IvLength + MacLength

  /** The three parts of a decoded envelope. */
  datatype Frame = Frame(iv: Bytes, ciphertext: Bytes, mac: Bytes)

  /** Cuts a decoded envelope into the leading IV, the trailing MAC and the ciphertext between them. */
  function Split(blob: Bytes): (f: Frame)
    requires |blob| >= MinEnvelopeLength
    ensures |f.iv| == IvLength && |f.mac| == MacLength
    ensures |f.ciphertext| == |blob| - MinEnvelopeLength
    ensures f.iv + f.ciphertext + f.mac == blob
  {
    Frame(blob[..IvLength], blob[IvLength..|blob| - MacLength], blob[|blob| - MacLength..])
  }

  /** Splitting undoes framing: an IV and a MAC of the right lengths are recovered around any ciphertext. */
  lemma SplitJoin(iv: Bytes, ciphertext: Bytes, mac: Bytes)
    requires |iv| == IvLength && |mac| == MacLength
    ensures Split(iv + ciphertext + mac) == Frame(iv, ciphertext, mac)
  {
    var blob := iv + ciphertext + mac;
    assert blob[..IvLength] == iv;
    assert blob[IvLength..|blob| - MacLength] == ciphertext;
    assert blob[|blob| - MacLength..] == mac;
  }

  /** The MAC at the end of a decoded envelope is the HMAC, under key, of everything before it. */
  predicate Authentic(lib: Crypto, key: Bytes, blob: Bytes)
    requires |blob| >= MacLength
  {
    lib.hmac(key, blob[..|blob| - MacLength]) == blob[|blob| - MacLength..]
  }

  /** A random key: the draw's bytes if they are there and strong. */
  function GenerateKey(d: Draw): (r: Result<Bytes>)
    requires d.Yields(KeyLength)
    ensures r.Ok? <==> d.Usable()
    ensures r.Ok? ==> |r.value| == KeyLength && r.value == d.bytes.value
    ensures r.Err? ==> r.error == KeyGenerationFailed
  {
    if d.bytes.None? || !d.strong then Err(KeyGenerationFailed) else Ok(d.bytes.value)
  }

  /** A random IV: the draw's bytes if they are there and strong. */
  function GenerateIv(d: Draw): (r: Result<Bytes>)
    requires d.Yields(IvLength)
    ensures r.Ok? <==> d.Usable()
    ensures r.Ok? ==> |r.value| == IvLength && r.value == d.bytes.value
    ensures r.Err? ==> r.error == IvGenerationFailed
  {
    if d.bytes.None? || !d.strong then Err(IvGenerationFailed) else Ok(d.bytes.value)
  }

  /** Construction gets past the key: a 32-byte key was supplied, or none was and a strong one was drawn. */
  predicate KeyAccepted(supplied: Option<Bytes>, keyDraw: Draw)
  {
    if supplied.Some? then |supplied.value| == KeyLength else keyDraw.Usable()
  }

  class Handler {
    /** The OpenSSL and hash calls this handler makes. */
    const lib: Crypto
    var key: Bytes
    var iv: Bytes

    /** The lengths every constructed handler keeps. */
    ghost predicate Valid()
      reads this
    {
      |key| == KeyLength && |iv| == IvLength
    }

    constructor (lib: Crypto, key: Bytes, iv: Bytes)
      requires |key| == KeyLength && |iv| == IvLength
      ensures Valid() && this.lib == lib && this.key == key && this.iv == iv
    {
      this.lib := lib;
      this.key := key;
      this.iv := iv;
    }

    /**
     * The constructor `new Handler($key)`: supplied is the optional key, and
     * keyDraw and ivDraw are what the random generator yields when it is asked
     * for a key and for an IV (the key draw is not consulted when a key is supplied).
     */
    static method Create(lib: Crypto, supplied: Option<Bytes>, keyDraw: Draw, ivDraw: Draw)
      returns (r: Result<Handler>)
      requires keyDraw.Yields(KeyLength) && ivDraw.Yields(IvLength)
      ensures supplied.Some? && |supplied.value| != KeyLength ==> r == Err(InvalidKey)
      ensures supplied.None? && !keyDraw.Usable() ==> r == Err(KeyGenerationFailed)
      ensures KeyAccepted(supplied, keyDraw) && !ivDraw.Usable() ==> r == Err(IvGenerationFailed)
      ensures KeyAccepted(supplied, keyDraw) && ivDraw.Usable() ==>
        && r.Ok? && fresh(r.value) && r.value.Valid() && r.value.lib == lib
        && r.value.key == (if supplied.Some? then supplied.value else keyDraw.bytes.value)
        && r.value.iv == ivDraw.bytes.value
    {
      var key: Bytes;
      if supplied.None? {
        key :- GenerateKey(keyDraw);
      } else if |supplied.value| != KeyLength {
        return Err(InvalidKey);
      } else {
        key := supplied.value;
      }
      var iv :- GenerateIv(ivDraw);
      var h := new Handler(lib, key, iv);
      return Ok(h);
    }

    /**
     * The envelope for data under the current key and IV. It reads the fields and
     * changes nothing, so two calls with no SetIv between them give the same text.
     */
    function Encrypt(data: Bytes): (r: Result<string>)
      reads this`key, this`iv
      ensures r.Err? <==> lib.encrypt(key, iv, data).None?
      ensures r.Err? ==> r.error == EncryptionFailed
      ensures r.Ok? ==>
        var ciphertext := lib.encrypt(key, iv, data).value;
        Base64.Decode(r.value) == Some(iv + ciphertext + lib.hmac(key, iv + ciphertext))
    {
      match lib.encrypt(key, iv, data)
      case None => Err(EncryptionFailed)
      case Some(ciphertext) =>
        var blob := iv + ciphertext + lib.hmac(key, iv + ciphertext);
        Base64.DecodeEncode(blob);
        Ok(Base64.Encode(blob))
    }

    /**
     * The plaintext of an envelope. It reads the key and not the IV field: the
     * IV comes from the envelope. Malformed and short input is rejected before
     * any MAC is computed, and nothing is decrypted unless the MAC matches.
     */
    function Decrypt(data: string): (r: Result<Bytes>)
      reads this`key
      ensures Base64.Decode(data).None? ==> r == Err(InvalidBase64)
      ensures Base64.Decode(data).Some? && |Base64.Decode(data).value| < MinEnvelopeLength ==>
        r == Err(TooShort)
      ensures r == Err(HmacMismatch) <==>
        var blob := Base64.Decode(data);
        blob.Some? && |blob.value| >= MinEnvelopeLength && !Authentic(lib, key, blob.value)
      ensures r.Ok? || r == Err(DecryptionFailed) ==>
        var blob := Base64.Decode(data);
        && blob.Some? && |blob.value| >= MinEnvelopeLength && Authentic(lib, key, blob.value)
        && var decrypted := lib.decrypt(key, blob.value[..IvLength], blob.value[IvLength..|blob.value| - MacLength]);
           if r.Ok? then decrypted == Some(r.value) else decrypted == None
      ensures var blob := Base64.Decode(data);
        blob.Some? && |blob.value| >= MinEnvelopeLength && Authentic(lib, key, blob.value) ==>
        r == match lib.decrypt(key, blob.value[..IvLength], blob.value[IvLength..|blob.value| - MacLength])
             case None => Err(DecryptionFailed)
             case Some(plaintext) => Ok(plaintext)
    {
      match Base64.Decode(data)
      case None => Err(InvalidBase64)
      case Some(blob) =>
        if |blob| < MinEnvelopeLength then Err(TooShort)
        else
          var f := Split(blob);
          assert blob[..|blob| - MacLength] == f.iv + f.ciphertext;
          if lib.hmac(key, f.iv + f.ciphertext) != f.mac then Err(HmacMismatch)
          else
            match lib.decrypt(key, f.iv, f.ciphertext)
            case None => Err(DecryptionFailed)
            case Some(plaintext) => Ok(plaintext)
    }

    /** Replaces the IV used by later encryptions; the key is untouched. */
    method SetIv(v: Bytes) returns (r: Outcome)
      modifies this`iv
      ensures |v| != IvLength ==> r == Fail(InvalidIv) && iv == old(iv)
      ensures |v| == IvLength ==> r == Pass && iv == v
      ensures key == old(key)
      ensures old(Valid()) ==> Valid()
    {
      if |v| != IvLength {
        return Fail(InvalidIv);
      }
      iv := v;
      return Pass;
    }
  }

  /**
   * Round trip: whatever sender encrypts, any handler with the same library and
   * key decrypts to the original data, whatever IV that handler holds.
   */
  lemma RoundTrip(sender: Handler, receiver: Handler, data: Bytes)
    requires sender.Valid() && Sound(sender.lib)
    requires receiver.lib == sender.lib && receiver.key == sender.key
    ensures sender.Encrypt(data).Ok? ==> receiver.Decrypt(sender.Encrypt(data).value) == Ok(data)
  {
    var lib, key, iv := sender.lib, sender.key, sender.iv;
    if lib.encrypt(key, iv, data).Some? {
      var ciphertext := lib.encrypt(key, iv, data).value;
      var mac := lib.hmac(key, iv + ciphertext);
      var blob := iv + ciphertext + mac;
      assert Base64.Decode(sender.Encrypt(data).value) == Some(blob);
      SplitJoin(iv, ciphertext, mac);
      assert blob[..|blob| - MacLength] == iv + ciphertext;
      assert blob[IvLength..|blob| - MacLength] == ciphertext;
    }
  }

  /**
   * Tampering with the tag: an envelope whose IV and ciphertext come from a genuine
   * encryption but whose 32-byte MAC is any other value is rejected with HmacMismatch.
   */
  lemma ForgedMacRejected(h: Handler, data: Bytes, forged: Bytes)
    requires h.Valid() && h.lib.encrypt(h.key, h.iv, data).Some?
    requires |forged| == MacLength
    requires forged != h.lib.hmac(h.key, h.iv + h.lib.encrypt(h.key, h.iv, data).value)
    ensures h.Decrypt(Base64.Encode(h.iv + h.lib.encrypt(h.key, h.iv, data).value + forged)) == Err(HmacMismatch)
  {
    var ciphertext := h.lib.encrypt(h.key, h.iv, data).value;
    var blob := h.iv + ciphertext + forged;
    Base64.DecodeEncode(blob);
    assert blob[..|blob| - MacLength] == h.iv + ciphertext;
    assert blob[|blob| - MacLength..] == forged;
  }

  /** Every envelope begins with the IV the handler held when it encrypted, so after SetIv(v) it begins with v. */
  lemma EnvelopeStartsWithIv(h: Handler, data: Bytes)
    requires |h.iv| == IvLength
    ensures h.Encrypt(data).Ok? ==>
      && Base64.Decode(h.Encrypt(data).value).Some?
      && |Base64.Decode(h.Encrypt(data).value).value| >= IvLength
      && Base64.Decode(h.Encrypt(data).value).value[..IvLength] == h.iv
  {
    if h.lib.encrypt(h.key, h.iv, data).Some? {
      var ciphertext := h.lib.encrypt(h.key, h.iv, data).value;
      var blob := h.iv + ciphertext + h.lib.hmac(h.key, h.iv + ciphertext);
      assert Base64.Decode(h.Encrypt(data).value) == Some(blob);
      assert blob[..IvLength] == h.iv;
    }
  }

  /**
   * Size of an envelope: with CBC padding, the decoded envelope is 48 bytes of IV and
   * MAC plus the data rounded up to the next whole block, so at least 64 bytes; a
   * plaintext shorter than one block (such as "test") gives exactly 64.
   */
  lemma EnvelopeLength(h: Handler, data: Bytes)
    requires Sound(h.lib) && PadsToBlocks(h.lib) && |h.iv| == IvLength
    ensures h.Encrypt(data).Ok? ==>
      && Base64.Decode(h.Encrypt(data).value).Some?
      && |Base64.Decode(h.Encrypt(data).value).value| == MinEnvelopeLength + (|data| / BlockSize + 1) * BlockSize
      && |Base64.Decode(h.Encrypt(data).value).value| >= MinEnvelopeLength + BlockSize
      && (|data| < BlockSize ==> |Base64.Decode(h.Encrypt(data).value).value| == 64)
  {
    if h.lib.encrypt(h.key, h.iv, data).Some? {
      var ciphertext := h.lib.encrypt(h.key, h.iv, data).value;
      var blocks := |data| / BlockSize + 1;
      assert |ciphertext| == blocks * BlockSize;
      assert blocks >= 1 && (|data| < BlockSize ==> blocks == 1);
      var blob := h.iv + ciphertext + h.lib.hmac(h.key, h.iv + ciphertext);
      assert |blob| == MinEnvelopeLength + blocks * BlockSize;
      assert Base64.Decode(h.Encrypt(data).value) == Some(blob);
    }
  }

  /**
   * The documented use of SetIv: set an IV, encrypt, set another IV, decrypt. The
   * data comes back whatever the second IV is, because decryption takes the IV
   * from the envelope; an IV of the wrong length is refused and leaves the old one.
   */
  method RoundTripAcrossSetIv(h: Handler, data: Bytes, v: Bytes, w: Bytes) returns (r: Result<Bytes>)
    requires h.Valid() && Sound(h.lib)
    modifies h`iv
    ensures h.Valid() && h.key == old(h.key)
    ensures var used := if |v| == IvLength then v else old(h.iv);
      && r == (if h.lib.encrypt(h.key, used, data).Some? then Ok(data) else Err(EncryptionFailed))
      && h.iv == (if r.Ok? && |w| == IvLength then w else used)
  {
    var first := h.SetIv(v);
    var sealed := h.Encrypt(data);
    if sealed.Err? {
      return Err(sealed.error);
    }
    RoundTrip(h, h, data);
    var second := h.SetIv(w);
    r := h.Decrypt(sealed.value);
  }
}
