/**
 * The external primitives the lockbox core calls but does not define: SHA-256,
 * HMAC-SHA256, raw AES-CBC, UTF-8 text encoding, base64, and the expiry
 * timestamp parser. They are left uninterpreted: a `Suite` bundles one choice of
 * each, and `Sound` states the only facts about them the core relies on.
 */
module Primitives {
  import opened Common

  /** A point in time, in seconds; both the parsed expiry and the trusted time are instants. */
  type Instant = int

  datatype Suite = Suite(
    /** `hashlib.sha256(data).digest()` */
    sha256: Bytes -> Digest,
    /** `HMAC.new(key, msg, digestmod=SHA256).digest()` */
    hmacSha256: (Bytes, Bytes) -> Digest,
    /** `AES.new(key, AES.MODE_CBC, iv).encrypt(data)`, without padding */
    aesCbcEncrypt: (Bytes, Bytes, Bytes) -> Bytes,
    /** `AES.new(key, AES.MODE_CBC, iv).decrypt(data)`, without padding */
    aesCbcDecrypt: (Bytes, Bytes, Bytes) -> Bytes,
    /** `text.encode('utf-8')` */
    utf8Encode: string -> Bytes,
    /** `data.decode('utf-8')`, which fails on malformed input */
    utf8Decode: Bytes -> Option<string>,
    /** `base64.b64encode(data).decode('ascii')` */
    b64Encode: Bytes -> string,
    /** `base64.b64decode(text)`, which fails on malformed input */
    b64Decode: string -> Option<Bytes>,
    /**
     * `datetime.strptime(line.decode('ascii'), '%d/%m/%Y %H:%M:%S')` with the local
     * time zone attached: fails on non-ASCII or malformed lines
     */
    parseExpiry: Bytes -> Option<Instant>
  )

  /** Key lengths `AES.new` accepts (AES-128, AES-192, AES-256). */
  predicate ValidAesKey(key: Bytes)
  {
    |key| == 16 || |key| == 24 || |key| == 32
  }

  /** Input `AES.new(key, AES.MODE_CBC, iv)` accepts and CBC encryption or decryption can process. */
  predicate CbcInput(key: Bytes, iv: Bytes, data: Bytes)
  {
    ValidAesKey(key) && |iv| == BLOCK_SIZE && |data| % BLOCK_SIZE == 0
  }

  /**
   * The facts about the primitives that the lockbox relies on: CBC encryption
   * and decryption keep the length of block-aligned data and decryption undoes
   * encryption under the same key and IV; UTF-8 and base64 decoding undo their encodings.
   */
  ghost predicate Sound(s: Suite)
  {
    && (forall key, iv, data | CbcInput(key, iv, data) ::
          |s.aesCbcEncrypt(key, iv, data)| == |data|
          && |s.aesCbcDecrypt(key, iv, data)| == |data|
          && s.aesCbcDecrypt(key, iv, s.aesCbcEncrypt(key, iv, data)) == data)
    && (forall text :: s.utf8Decode(s.utf8Encode(text)) == Some(text))
    && (forall data :: s.b64Decode(s.b64Encode(data)) == Some(data))
  }

  /** `h` maps two different inputs to the same output. */
  ghost predicate Collides<X, Y>(h: X -> Y, x: X, y: X)
  {
    x != y && h(x) == h(y)
  }
}
