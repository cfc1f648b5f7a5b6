/**
 * The encrypted payload: the text `base:ext:b64` holding the original file's
 * name stem, its extension without the dot and its content in base64.
 */
module Payload {
  import opened Common
  import opened Primitives
  import opened Seqs

  const COLON: char := ':'

  /** What a payload decodes to: the stored stem, extension and file content. */
  datatype Decoded = Decoded(base: string, ext: string, content: Bytes)

  /** `f"{base}:{ext}:{b64encode(data)}"`: always at least the two separating colons. */
  function EncodePayload(s: Suite, base: string, ext: string, data: Bytes): (text: string)
    ensures multiset(text)[COLON] >= 2
  {
    base + [COLON] + ext + [COLON] + s.b64Encode(data)
  }

  /**
   * `text.split(':', 2)`, which must give exactly three parts, then base64
   * decoding of the third; the third part keeps any further colons.
   */
  function DecodePayload(s: Suite, text: string): (r: Result<Decoded, FormatFault>)
    ensures r.Err? ==> r.error == BadPartCount || r.error == BadBase64
    ensures r.Ok? ==> COLON !in r.value.base && COLON !in r.value.ext
  {
    var parts := Split(text, COLON, 2);
    if |parts| != 3 then Err(BadPartCount)
    else
      SplitPartFree(text, COLON, 2, 0);
      SplitPartFree(text, COLON, 2, 1);
      match s.b64Decode(parts[2])
      case None => Err(BadBase64)
      case Some(content) => Ok(Decoded(parts[0], parts[1], content))
  }

  /** The part-count gate fails exactly when the text holds fewer than two colons. */
  lemma PartCountFails(s: Suite, text: string)
    ensures DecodePayload(s, text) == Err(BadPartCount) <==> multiset(text)[COLON] < 2
  {
    SplitCount(text, COLON, 2);
  }

  /** The text built from a colon-free stem and extension splits back into them and the base64 part. */
  lemma SplitEncoded(base: string, ext: string, b64: string)
    requires COLON !in base && COLON !in ext
    ensures Split(base + [COLON] + ext + [COLON] + b64, COLON, 2) == [base, ext, b64]
  {
    var rest := ext + [COLON] + b64;
    assert base + [COLON] + ext + [COLON] + b64 == base + [COLON] + rest;
    SplitAfter(base, COLON, rest, 2);
    SplitAfter(ext, COLON, b64, 1);
  }

  /**
   * With sound primitives a payload decodes back to the stem, extension and
   * content it was built from exactly when neither the stem nor the extension
   * holds a colon.
   */
  lemma PayloadRoundTrip(s: Suite, base: string, ext: string, data: Bytes)
    requires Sound(s)
    ensures DecodePayload(s, EncodePayload(s, base, ext, data)) == Ok(Decoded(base, ext, data))
        <==> COLON !in base && COLON !in ext
  {
    var b64 := s.b64Encode(data);
    var text := EncodePayload(s, base, ext, data);
    if COLON !in base && COLON !in ext {
      SplitEncoded(base, ext, b64);
      assert s.b64Decode(b64) == Some(data);
    }
  }
}
