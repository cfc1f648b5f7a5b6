/**
 * PKCS#7 padding (section 6.3 of RFC 5652) to the AES block size, as done by
 * `pad(data, BLOCK_SIZE)` and `unpad(data, BLOCK_SIZE)` of pycryptodome's
 * `Crypto.Util.Padding` in their default `pkcs7` style.
 */
module Padding {
  import opened Common

  /** `n` copies of the byte whose value is `n`. */
  function PadBytes(n: nat): (r: Bytes)
    requires n < 256
    ensures |r| == n
  {
    seq(n, _ => n as byte)
  }

  /**
   * Appends between 1 and BLOCK_SIZE copies of the padding length so that the
   * result fills whole blocks.
   */
  function Pad(data: Bytes): (r: Bytes)
    ensures |r| % BLOCK_SIZE == 0
    ensures |data| < |r| <= |data| + BLOCK_SIZE
    ensures r[..|data|] == data
  {
    data + PadBytes(BLOCK_SIZE - |data| % BLOCK_SIZE)
  }

  /**
   * Removes PKCS#7 padding; fails on empty input, input that is not whole
   * blocks, a final byte outside 1..min(BLOCK_SIZE, |padded|), or padding bytes
   * that do not all equal that final byte.
   */
  function Unpad(padded: Bytes): (r: Option<Bytes>)
    ensures r.Some? ==> |padded| % BLOCK_SIZE == 0 && |padded| - BLOCK_SIZE <= |r.value| < |padded|
    ensures r.Some? ==> r.value == padded[..|r.value|]
  {
    if |padded| == 0 then None
    else if |padded| % BLOCK_SIZE != 0 then None
    else
      var n := padded[|padded| - 1] as nat;
      if n < 1 || n > Min(BLOCK_SIZE, |padded|) then None
      else if padded[|padded| - n..] != PadBytes(n) then None
      else Some(padded[..|padded| - n])
  }

  /** Unpadding undoes padding. */
  lemma UnpadPad(data: Bytes)
    ensures Unpad(Pad(data)) == Some(data)
  {
    var n := BLOCK_SIZE - |data| % BLOCK_SIZE;
    var padded := Pad(data);
    assert padded[|padded| - 1] as nat == n;
    assert padded[|padded| - n..] == PadBytes(n);
    assert padded[..|padded| - n] == data;
  }

  /** Padding is canonical: whatever unpads to `data` is exactly `Pad(data)`. */
  lemma PadUnpad(padded: Bytes, data: Bytes)
    requires Unpad(padded) == Some(data)
    ensures Pad(data) == padded
  {
    var n := padded[|padded| - 1] as nat;
    var blocks := |padded| / BLOCK_SIZE;
    assert |padded| == blocks * BLOCK_SIZE;
    assert |data| == (blocks - 1) * BLOCK_SIZE + (BLOCK_SIZE - n);
    assert BLOCK_SIZE - |data| % BLOCK_SIZE == n by {
      if n < BLOCK_SIZE {
        assert |data| % BLOCK_SIZE == BLOCK_SIZE - n;
      } else {
        assert |data| % BLOCK_SIZE == 0;
      }
    }
    assert padded == padded[..|padded| - n] + padded[|padded| - n..];
  }
}
