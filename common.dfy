/** Shared vocabulary of the lockbox model: bytes, fixed sizes and the option type. */
module Common {

  /** An octet, as held in a Python `bytes` object. */
  newtype byte = x: int | 0 <= x < 256

  type Bytes = seq<byte>

  /** AES block size in bytes (`AES.block_size`); also the IV length of AES-CBC. */
  const BLOCK_SIZE: nat := 16

  /** Length in bytes of an HMAC-SHA256 tag (`SHA256.digest_size`). */
  const HMAC_SIZE: nat := 32

  /** The byte `b'\n'` that ends the expiry line of a container. */
  const NEWLINE: byte := 0x0A

  /** A SHA-256 output: always exactly 32 bytes. */
  type Digest = b: Bytes | |b| == HMAC_SIZE witness seq(32, _ => 0)

  datatype Option<+T> = None | Some(value: T)

  datatype Result<+T, +E> = Ok(value: T) | Err(error: E)

  /** The reasons a container or its decrypted payload is rejected as malformed. */
  datatype FormatFault =
    | TooShort       // no room for a tag plus at least one message byte
    | NoExpiryLine   // no newline before the tag
    | BadExpiry      // the expiry line is not a valid `DD/MM/YYYY HH:MM:SS` timestamp
    | BadPartCount   // the decrypted text does not split into three `:`-separated parts
    | BadBase64      // the third part is not valid base64

  function Min(a: int, b: int): int
  {
    if a <= b then a else b
  }
}
