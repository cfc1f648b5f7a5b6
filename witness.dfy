/**
 * A concrete, deliberately insecure suite of primitives that satisfies `Sound`.
 * It shows that the facts assumed about the real primitives are consistent, so
 * the lemmas that assume them are not vacuous.
 */
module ToySuite {
  import opened Common
  import opened Primitives

  function Zeros(): Digest
  {
    seq(32, _ => 0)
  }

  /** A Unicode scalar value in three big-endian bytes. */
  function CharBytes(c: char): (r: Bytes)
    ensures |r| == 3
  {
    var v := c as int;
    [(v / 0x1_0000) as byte, ((v % 0x1_0000) / 0x100) as byte, (v % 0x100) as byte]
  }

  function EncodeChars(text: string): Bytes
  {
    if text == [] then [] else CharBytes(text[0]) + EncodeChars(text[1..])
  }

  function DecodeChars(data: Bytes): Option<string>
    decreases |data|
  {
    if |data| == 0 then Some([])
    else if |data| < 3 then None
    else
      var v := data[0] as int * 0x1_0000 + data[1] as int * 0x100 + data[2] as int;
      if !(0 <= v < 0xD800 || 0xE000 <= v < 0x11_0000) then None
      else match DecodeChars(data[3..])
        case None => None
        case Some(rest) => Some([v as char] + rest)
  }

  lemma CharBytesValue(c: char)
    ensures CharBytes(c)[0] as int * 0x1_0000 + CharBytes(c)[1] as int * 0x100 + CharBytes(c)[2] as int
         == c as int
  {
    var v := c as int;
    assert v == (v / 0x1_0000) * 0x1_0000 + v % 0x1_0000;
    assert v % 0x1_0000 == ((v % 0x1_0000) / 0x100) * 0x100 + (v % 0x1_0000) % 0x100;
    assert (v % 0x1_0000) % 0x100 == v % 0x100;
  }

  /** Decoding reads one character back off the front of its three bytes. */
  lemma DecodeCharBytes(c: char, rest: Bytes)
    ensures DecodeChars(CharBytes(c) + rest)
         == match DecodeChars(rest) case None => None case Some(r) => Some([c] + r)
  {
    var data := CharBytes(c) + rest;
    assert data[..3] == CharBytes(c);
    assert data[3..] == rest;
    CharBytesValue(c);
  }

  lemma {:induction false} DecodeEncodeChars(text: string)
    ensures DecodeChars(EncodeChars(text)) == Some(text)
  {
    if text != [] {
      DecodeCharBytes(text[0], EncodeChars(text[1..]));
      DecodeEncodeChars(text[1..]);
      assert [text[0]] + text[1..] == text;
    }
  }

  function EncodeBytes(data: Bytes): string
  {
    if data == [] then [] else [(data[0] as int) as char] + EncodeBytes(data[1..])
  }

  function DecodeBytes(text: string): Option<Bytes>
  {
    if text == [] then Some([])
    else if text[0] as int >= 256 then None
    else match DecodeBytes(text[1..])
      case None => None
      case Some(rest) => Some([(text[0] as int) as byte] + rest)
  }

  lemma {:induction false} DecodeEncodeBytes(data: Bytes)
    ensures DecodeBytes(EncodeBytes(data)) == Some(data)
  {
    if data != [] {
      var text := EncodeBytes(data);
      assert text[1..] == EncodeBytes(data[1..]);
      DecodeEncodeBytes(data[1..]);
      assert [data[0]] + data[1..] == data;
    }
  }

  /** The toy suite: constant hashes, the identity cipher, fixed-width text and byte codecs. */
  function Toy(): Suite
  {
    Suite(
      (_: Bytes) => Zeros(),
      (_: Bytes, _: Bytes) => Zeros(),
      (_: Bytes, _: Bytes, data: Bytes) => data,
      (_: Bytes, _: Bytes, data: Bytes) => data,
      EncodeChars,
      DecodeChars,
      EncodeBytes,
      DecodeBytes,
      (_: Bytes) => None)
  }

  lemma SoundIsSatisfiable()
    ensures Sound(Toy())
  {
    forall text: string ensures Toy().utf8Decode(Toy().utf8Encode(text)) == Some(text) {
      DecodeEncodeChars(text);
    }
    forall data: Bytes ensures Toy().b64Decode(Toy().b64Encode(data)) == Some(data) {
      DecodeEncodeBytes(data);
    }
  }
}
