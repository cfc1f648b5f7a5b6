/**
 * The secret envelope (`encrypt_secret` and `decrypt_secret`): the plaintext's
 * UTF-8 bytes, PKCS#7-padded and encrypted with AES-CBC, preceded by the IV.
 * The IV, random in the program, is a parameter here.
 */
module Envelope {
  import opened Common
  import opened Primitives
  import opened Padding

  /** `iv || AES-CBC(key, iv, pad(utf8(plaintext)))`. */
  function EncryptSecret(s: Suite, plaintext: string, key: Digest, iv: Bytes): (blob: Bytes)
    requires |iv| == BLOCK_SIZE
    ensures |blob| >= BLOCK_SIZE && blob[..BLOCK_SIZE] == iv
  {
    iv + s.aesCbcEncrypt(key, iv, Pad(s.utf8Encode(plaintext)))
  }

  /**
   * Takes the first block of `blob` as the IV and the rest as ciphertext. Fails
   * (the `ValueError` the program catches) when the IV is short, the ciphertext
   * is not whole blocks, the padding is malformed or the bytes are not UTF-8.
   */
  function DecryptSecret(s: Suite, blob: Bytes, key: Digest): (r: Option<string>)
    ensures r.Some? ==> |blob| >= BLOCK_SIZE && |blob| % BLOCK_SIZE == 0
  {
    if |blob| < BLOCK_SIZE then None
    else
      var iv, ct := blob[..BLOCK_SIZE], blob[BLOCK_SIZE..];
      if |ct| % BLOCK_SIZE != 0 then None
      else match Unpad(s.aesCbcDecrypt(key, iv, ct))
        case None => None
        case Some(data) => s.utf8Decode(data)
  }

  /**
   * With sound primitives the ciphertext after the IV is a whole number of
   * blocks, strictly longer than the plaintext's bytes and at most one block
   * longer.
   */
  lemma EncryptLayout(s: Suite, plaintext: string, key: Digest, iv: Bytes)
    requires Sound(s) && |iv| == BLOCK_SIZE
    ensures var blob := EncryptSecret(s, plaintext, key, iv);
            var n := |s.utf8Encode(plaintext)|;
            && |blob| % BLOCK_SIZE == 0
            && n < |blob| - BLOCK_SIZE <= n + BLOCK_SIZE
  {
    var padded := Pad(s.utf8Encode(plaintext));
    assert CbcInput(key, iv, padded);
  }

  /** Decryption with the same key recovers the plaintext. */
  lemma DecryptEncrypt(s: Suite, plaintext: string, key: Digest, iv: Bytes)
    requires Sound(s) && |iv| == BLOCK_SIZE
    ensures DecryptSecret(s, EncryptSecret(s, plaintext, key, iv), key) == Some(plaintext)
  {
    var data := s.utf8Encode(plaintext);
    var padded := Pad(data);
    assert CbcInput(key, iv, padded);
    var blob := EncryptSecret(s, plaintext, key, iv);
    assert blob[BLOCK_SIZE..] == s.aesCbcEncrypt(key, iv, padded);
    UnpadPad(data);
  }

  /**
   * With sound primitives a blob that decrypts holds the IV and at least one
   * ciphertext block: an IV alone never decrypts.
   */
  lemma DecryptNeedsCiphertext(s: Suite, blob: Bytes, key: Digest)
    requires Sound(s)
    ensures DecryptSecret(s, blob, key).Some? ==> |blob| >= 2 * BLOCK_SIZE
  {
    if |blob| >= BLOCK_SIZE && (|blob| - BLOCK_SIZE) % BLOCK_SIZE == 0 {
      var iv, ct := blob[..BLOCK_SIZE], blob[BLOCK_SIZE..];
      assert CbcInput(key, iv, ct);
    }
  }
}
