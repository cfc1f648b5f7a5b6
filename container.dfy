/**
 * The lockbox container: the expiry line, a newline, the encrypted blob, then
 * the 32-byte HMAC-SHA256 tag of everything before it under the MAC key.
 */
module Container {
  import opened Common
  import opened Primitives
  import opened Seqs

  /** The authenticated message `expiry || b'\n' || blob`. */
  function Message(expiry: Bytes, blob: Bytes): (msg: Bytes)
    ensures |msg| == |expiry| + 1 + |blob|
  {
    expiry + [NEWLINE] + blob
  }

  /** The file's bytes: the message followed by its tag. */
  function Seal(s: Suite, macKey: Digest, msg: Bytes): (content: Bytes)
    ensures |content| == |msg| + HMAC_SIZE && content[..|msg|] == msg
  {
    msg + s.hmacSha256(macKey, msg)
  }

  /**
   * Splits file content into message and tag; content of at most HMAC_SIZE
   * bytes is rejected as too small.
   */
  function SplitTag(content: Bytes): (r: Option<(Bytes, Digest)>)
    ensures r.None? <==> |content| <= HMAC_SIZE
    ensures r.Some? ==> r.value.0 + r.value.1 == content
  {
    if |content| <= HMAC_SIZE then None
    else Some((content[..|content| - HMAC_SIZE], content[|content| - HMAC_SIZE..]))
  }

  /** `HMAC.verify`: the tag is the HMAC of the message under the MAC key. */
  predicate TagValid(s: Suite, macKey: Digest, msg: Bytes, tag: Digest)
    ensures TagValid(s, macKey, msg, tag) <==> Seal(s, macKey, msg) == msg + tag
  {
    assert Seal(s, macKey, msg) == msg + tag ==> (msg + tag)[|msg|..] == tag;
    s.hmacSha256(macKey, msg) == tag
  }

  /**
   * `msg.split(b'\n', 1)` unpacked into exactly two parts; fails without a newline.
   * Only the newline between the two parts is dropped.
   */
  function SplitLine(msg: Bytes): (r: Option<(Bytes, Bytes)>)
    ensures r.Some? ==> |r.value.0| + 1 + |r.value.1| == |msg|
  {
    var parts := Split(msg, NEWLINE, 1);
    if |parts| != 2 then None else Some((parts[0], parts[1]))
  }

  /**
   * Sealed content splits back into the message and a tag that verifies under
   * the same key. The message must be non-empty (a `Message` always is): an empty
   * one would leave content of exactly HMAC_SIZE bytes, which is rejected.
   */
  lemma SplitTagSeal(s: Suite, macKey: Digest, msg: Bytes)
    requires |msg| > 0
    ensures var r := SplitTag(Seal(s, macKey, msg));
            r.Some? && r.value.0 == msg && TagValid(s, macKey, msg, r.value.1)
  {
    var content := Seal(s, macKey, msg);
    assert |content| > HMAC_SIZE;
    assert content[..|content| - HMAC_SIZE] == msg;
    assert content[|content| - HMAC_SIZE..] == s.hmacSha256(macKey, msg);
  }

  /** The split fails exactly when the message holds no newline. */
  lemma SplitLineFails(msg: Bytes)
    ensures SplitLine(msg).None? <==> NEWLINE !in msg
  {
    SplitCount(msg, NEWLINE, 1);
    assert NEWLINE in msg <==> multiset(msg)[NEWLINE] > 0;
  }

  /**
   * A successful split cuts at the first newline: the line holds none, and
   * line, newline and rest make up the message.
   */
  lemma SplitLineParts(msg: Bytes)
    requires SplitLine(msg).Some?
    ensures var (line, rest) := SplitLine(msg).value;
            NEWLINE !in line && msg == line + [NEWLINE] + rest
  {
    var i := IndexOf(msg, NEWLINE).value;
    IndexOfFirst(msg, NEWLINE);
    Reassemble(msg, i);
  }

  /** The message splits back into the expiry and the blob exactly when the expiry holds no newline. */
  lemma SplitLineMessage(expiry: Bytes, blob: Bytes)
    ensures SplitLine(Message(expiry, blob)) == Some((expiry, blob)) <==> NEWLINE !in expiry
  {
    if NEWLINE !in expiry {
      SplitAfter(expiry, NEWLINE, blob, 1);
    } else if SplitLine(Message(expiry, blob)) == Some((expiry, blob)) {
      SplitLineParts(Message(expiry, blob));
    }
  }
}
