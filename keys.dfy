/**
 * Key derivation (`derive_keys`): the encryption key and the MAC key are the
 * SHA-256 digests of the password's UTF-8 bytes followed by the suffix `enc`
 * or `mac`. No salt, no randomness, no failure.
 */
module Keys {
  import opened Common
  import opened Primitives

  /** The bytes `b'enc'`. */
  const ENC_SUFFIX: Bytes := [0x65, 0x6E, 0x63]
  /** The bytes `b'mac'`. */
  const MAC_SUFFIX: Bytes := [0x6D, 0x61, 0x63]

  datatype KeyPair = KeyPair(enc: Digest, mac: Digest)

  /**
   * What SHA-256 hashes to make the encryption key: the password's bytes, then
   * `enc`. It is never what any password's MAC key is hashed from.
   */
  function EncInput(s: Suite, password: string): (input: Bytes)
    ensures forall p :: input != s.utf8Encode(p) + MAC_SUFFIX
  {
    var r := s.utf8Encode(password) + ENC_SUFFIX;
    assert forall p :: r != s.utf8Encode(p) + MAC_SUFFIX by {
      forall p ensures r != s.utf8Encode(p) + MAC_SUFFIX {
        SuffixesDiffer(s.utf8Encode(password), s.utf8Encode(p));
      }
    }
    r
  }

  /**
   * What SHA-256 hashes to make the MAC key: the password's bytes, then `mac`.
   * It is never what any password's encryption key is hashed from.
   */
  function MacInput(s: Suite, password: string): (input: Bytes)
    ensures forall p :: input != s.utf8Encode(p) + ENC_SUFFIX
  {
    var r := s.utf8Encode(password) + MAC_SUFFIX;
    assert forall p :: r != s.utf8Encode(p) + ENC_SUFFIX by {
      forall p ensures r != s.utf8Encode(p) + ENC_SUFFIX {
        SuffixesDiffer(s.utf8Encode(p), s.utf8Encode(password));
      }
    }
    r
  }

  /** Whatever precedes them, the two suffixes keep the inputs apart: they differ in their middle byte. */
  lemma SuffixesDiffer(a: Bytes, b: Bytes)
    ensures a + ENC_SUFFIX != b + MAC_SUFFIX
  {
    var e, m := a + ENC_SUFFIX, b + MAC_SUFFIX;
    if |e| == |m| {
      assert e[|e| - 2] == 0x6E && m[|m| - 2] == 0x61;
    }
  }

  /**
   * Always succeeds, with the encryption key usable as an AES-256 key (by the
   * `Digest` type). The two keys of one password coincide only through a
   * SHA-256 collision.
   */
  function DeriveKeys(s: Suite, password: string): (k: KeyPair)
    ensures k.enc == k.mac ==> Collides(s.sha256, EncInput(s, password), MacInput(s, password))
  {
    DomainSeparated(s, password, password);
    KeyPair(s.sha256(EncInput(s, password)), s.sha256(MacInput(s, password)))
  }

  /**
   * Domain separation: the input hashed for an encryption key never equals the
   * input hashed for a MAC key, whatever the two passwords.
   */
  lemma DomainSeparated(s: Suite, p1: string, p2: string)
    ensures EncInput(s, p1) != MacInput(s, p2)
  {
    SuffixesDiffer(s.utf8Encode(p1), s.utf8Encode(p2));
  }

  /**
   * An encryption key can coincide with a MAC key (of the same password or of
   * another) only through a SHA-256 collision.
   */
  lemma EncMacKeysDiffer(s: Suite, p1: string, p2: string)
    ensures DeriveKeys(s, p1).enc == DeriveKeys(s, p2).mac
        ==> Collides(s.sha256, EncInput(s, p1), MacInput(s, p2))
  {
    DomainSeparated(s, p1, p2);
  }

  /**
   * Different passwords yield different MAC keys and different encryption keys
   * unless SHA-256 collides on their (distinct) inputs.
   */
  lemma DistinctPasswordsDistinctKeys(s: Suite, p1: string, p2: string)
    requires Sound(s)
    requires p1 != p2
    ensures DeriveKeys(s, p1).mac == DeriveKeys(s, p2).mac
        ==> Collides(s.sha256, MacInput(s, p1), MacInput(s, p2))
    ensures DeriveKeys(s, p1).enc == DeriveKeys(s, p2).enc
        ==> Collides(s.sha256, EncInput(s, p1), EncInput(s, p2))
  {
    var b1, b2 := s.utf8Encode(p1), s.utf8Encode(p2);
    assert s.utf8Decode(b1) == Some(p1) && s.utf8Decode(b2) == Some(p2);
    assert b1 != b2;
    if MacInput(s, p1) == MacInput(s, p2) {
      SuffixCancels(b1, b2, MAC_SUFFIX);
    }
    if EncInput(s, p1) == EncInput(s, p2) {
      SuffixCancels(b1, b2, ENC_SUFFIX);
    }
  }

  lemma SuffixCancels(a: Bytes, b: Bytes, suffix: Bytes)
    requires a + suffix == b + suffix
    ensures a == b
  {
    assert |a| == |b|;
    assert a == (a + suffix)[..|a|];
  }
}
