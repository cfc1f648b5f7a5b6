/**
 * Writing and reading a lockbox, without the prompts and the file I/O around
 * them. Writing seals the named, encoded and encrypted file content under an
 * expiry. Reading passes ten gates in a fixed order, and the first that fails
 * decides the outcome: length, HMAC, newline split, expiry parse, trusted time,
 * expiry reached, decryption, part count, base64, output name.
 */
module Engine {
  import opened Common
  import opened Primitives
  import opened Seqs
  import opened Keys
  import opened Envelope
  import opened Container
  import opened Payload
  import opened Names

  /** How a read ends. */
  datatype Outcome =
    | FormatError(fault: FormatFault)
    | IntegrityError                       // the tag does not verify: tampered or wrong password
    | TimeUnavailable                      // no trusted time could be fetched
    | NotYetExpired(expiry: Instant)       // the trusted time is before the expiry
    | DecryptionError                      // `decrypt_secret` raised
    | Released(fileName: string, content: Bytes)

  /** The steps of a read, in the order they run. */
  datatype Gate =
    | LengthCheck | MacVerify | NewlineSplit | ExpiryParse | TimeFetch
    | ExpiryCompare | Decrypt | PartCount | Base64Decode | OutputName

  const Gates: seq<Gate> :=
    [LengthCheck, MacVerify, NewlineSplit, ExpiryParse, TimeFetch,
     ExpiryCompare, Decrypt, PartCount, Base64Decode, OutputName]

  /** How many gates have run when a read ends with `o`: the last of them decided it. */
  function Stage(o: Outcome): (n: nat)
    ensures 1 <= n <= |Gates|
  {
    match o
    case FormatError(TooShort) => 1
    case IntegrityError => 2
    case FormatError(NoExpiryLine) => 3
    case FormatError(BadExpiry) => 4
    case TimeUnavailable => 5
    case NotYetExpired(_) => 6
    case DecryptionError => 7
    case FormatError(BadPartCount) => 8
    case FormatError(BadBase64) => 9
    case Released(_, _) => 10
  }

  /** A lockbox file: its name and its bytes. */
  datatype Lockbox = Lockbox(fileName: string, content: Bytes)

  /**
   * The lockbox written for a file with stem `base`, extension `ext` (without
   * its dot) and content `data`, under the given expiry line, password and IV.
   */
  function WriteLockbox(s: Suite, expiry: Bytes, base: string, ext: string, data: Bytes,
                        password: string, iv: Bytes): (lb: Lockbox)
    requires |iv| == BLOCK_SIZE
    ensures lb.fileName == LockboxName(base)
    ensures |lb.content| > |expiry| + HMAC_SIZE
    ensures lb.content[..|expiry| + 1] == expiry + [NEWLINE]
  {
    var keys := DeriveKeys(s, password);
    var blob := EncryptSecret(s, EncodePayload(s, base, ext, data), keys.enc, iv);
    var content := Seal(s, keys.mac, Message(expiry, blob));
    assert content[..|expiry| + 1] == expiry + [NEWLINE];
    Lockbox(LockboxName(base), content)
  }

  /**
   * The outcome of reading `content` with `password` when the trusted time is
   * `trustedTime` (`None` when it cannot be fetched).
   */
  function Read(s: Suite, content: Bytes, password: string, trustedTime: Option<Instant>): (o: Outcome)
    ensures Stage(o) > 2 ==>
              && |content| > HMAC_SIZE
              && TagValid(s, DeriveKeys(s, password).mac, content[..|content| - HMAC_SIZE],
                          content[|content| - HMAC_SIZE..])
  {
    var keys := DeriveKeys(s, password);
    match SplitTag(content)
    case None => FormatError(TooShort)
    case Some((msg, tag)) =>
      if !TagValid(s, keys.mac, msg, tag) then IntegrityError
      else ReadMessage(s, keys.enc, msg, trustedTime)
  }

  /** The gates after the integrity check, on the authenticated message. */
  function ReadMessage(s: Suite, encKey: Digest, msg: Bytes, trustedTime: Option<Instant>): (o: Outcome)
    ensures Stage(o) >= 3
    ensures Stage(o) > 3 ==> NEWLINE in msg
    ensures Stage(o) > 5 ==> trustedTime.Some?
    ensures o.NotYetExpired? ==> trustedTime.Some? && trustedTime.value < o.expiry
  {
    match SplitLine(msg)
    case None => FormatError(NoExpiryLine)
    case Some((line, blob)) =>
      match s.parseExpiry(line)
      case None => FormatError(BadExpiry)
      case Some(expiry) =>
        match trustedTime
        case None => TimeUnavailable
        case Some(now) =>
          if now < expiry then NotYetExpired(expiry)
          else Release(s, encKey, blob)
  }

  /** The gates after the expiry is reached: decryption, payload decoding, output name. */
  function Release(s: Suite, encKey: Digest, blob: Bytes): (o: Outcome)
    ensures Stage(o) >= 7
    ensures o != DecryptionError ==> |blob| >= BLOCK_SIZE && |blob| % BLOCK_SIZE == 0
  {
    match DecryptSecret(s, blob, encKey)
    case None => DecryptionError
    case Some(text) => Restore(s, text)
  }

  /** The gates run on the decrypted text: the part count, base64 decoding, the output name. */
  function Restore(s: Suite, text: string): (o: Outcome)
    ensures Stage(o) >= 8
    ensures o == FormatError(BadPartCount) <==> multiset(text)[COLON] < 2
  {
    PartCountFails(s, text);
    match DecodePayload(s, text)
    case Err(fault) => FormatError(fault)
    case Ok(d) => Released(RecoveredName(d.base, d.ext), d.content)
  }

  /**
   * The read as the program runs it, returning at the first failing gate;
   * `ran` lists the gates it went through, the deciding one last.
   */
  method ReadLockbox(s: Suite, content: Bytes, password: string, trustedTime: Option<Instant>)
    returns (o: Outcome, ran: seq<Gate>)
    ensures o == Read(s, content, password, trustedTime)
    ensures ran == Gates[0..Stage(o)]
  {
    var keys := DeriveKeys(s, password);
    ran := [LengthCheck];
    assert ran == Gates[0..1];
    if |content| <= HMAC_SIZE {
      return FormatError(TooShort), ran;
    }
    var msg, tag := content[..|content| - HMAC_SIZE], content[|content| - HMAC_SIZE..];
    GatesExtend(ran, 0, 1);
    ran := ran + [MacVerify];
    if s.hmacSha256(keys.mac, msg) != tag {
      return IntegrityError, ran;
    }
    assert Read(s, content, password, trustedTime) == ReadMessage(s, keys.enc, msg, trustedTime);
    var rest;
    o, rest := ReadMessageGates(s, keys.enc, msg, trustedTime);
    GatesJoin(0, 2, Stage(o));
    ran := ran + rest;
  }

  /**
   * The gates run on the authenticated message: the newline split, the expiry
   * parse, the trusted-time fetch and the expiry comparison, then the rest.
   * `ran` lists the gates it went through.
   */
  method ReadMessageGates(s: Suite, encKey: Digest, msg: Bytes, trustedTime: Option<Instant>)
    returns (o: Outcome, ran: seq<Gate>)
    ensures o == ReadMessage(s, encKey, msg, trustedTime)
    ensures 3 <= Stage(o) && ran == Gates[2..Stage(o)]
  {
    ran := [NewlineSplit];
    assert ran == Gates[2..3];
    var lines := SplitLine(msg);
    if lines.None? {
      return FormatError(NoExpiryLine), ran;
    }
    var (expiryLine, blob) := lines.value;
    GatesExtend(ran, 2, 3);
    ran := ran + [ExpiryParse];
    var parsed := s.parseExpiry(expiryLine);
    if parsed.None? {
      return FormatError(BadExpiry), ran;
    }
    var expiry := parsed.value;
    GatesExtend(ran, 2, 4);
    ran := ran + [TimeFetch];
    if trustedTime.None? {
      return TimeUnavailable, ran;
    }
    var now := trustedTime.value;
    GatesExtend(ran, 2, 5);
    ran := ran + [ExpiryCompare];
    if now < expiry {
      return NotYetExpired(expiry), ran;
    }
    var rest;
    o, rest := ReleaseGates(s, encKey, blob);
    GatesJoin(2, 6, Stage(o));
    ran := ran + rest;
  }

  /**
   * The gates run once the expiry is reached: decryption, then the rest.
   * `ran` lists the gates it went through.
   */
  method ReleaseGates(s: Suite, encKey: Digest, blob: Bytes) returns (o: Outcome, ran: seq<Gate>)
    ensures o == Release(s, encKey, blob)
    ensures 7 <= Stage(o) && ran == Gates[6..Stage(o)]
  {
    ran := [Decrypt];
    assert ran == Gates[6..7];
    var decrypted := DecryptSecret(s, blob, encKey);
    if decrypted.None? {
      return DecryptionError, ran;
    }
    var rest;
    o, rest := RestoreGates(s, decrypted.value);
    GatesJoin(6, 7, Stage(o));
    ran := ran + rest;
  }

  /**
   * The gates run on the decrypted text: the part count, base64 decoding and
   * the output name. `ran` lists the gates it went through.
   */
  method RestoreGates(s: Suite, text: string) returns (o: Outcome, ran: seq<Gate>)
    ensures o == Restore(s, text)
    ensures 8 <= Stage(o) && ran == Gates[7..Stage(o)]
  {
    ran := [PartCount];
    assert ran == Gates[7..8];
    var parts := Split(text, COLON, 2);
    if |parts| != 3 {
      return FormatError(BadPartCount), ran;
    }
    var fileBase, extension := parts[0], parts[1];
    GatesExtend(ran, 7, 8);
    ran := ran + [Base64Decode];
    var fileContent := s.b64Decode(parts[2]);
    if fileContent.None? {
      return FormatError(BadBase64), ran;
    }
    GatesExtend(ran, 7, 9);
    ran := ran + [OutputName];
    o := Released(RecoveredName(fileBase, extension), fileContent.value);
  }

  /** Running the next gate extends a run of consecutive gates by one. */
  lemma GatesExtend(ran: seq<Gate>, i: nat, k: nat)
    requires i <= k < |Gates| && ran == Gates[i..k]
    ensures ran + [Gates[k]] == Gates[i..k + 1]
  {
  }

  /** Two adjacent runs of gates make one run. */
  lemma GatesJoin(i: nat, j: nat, k: nat)
    requires i <= j <= k <= |Gates|
    ensures Gates[i..j] + Gates[j..k] == Gates[i..k]
  {
  }

  /** Decryption is among the first `k` gates exactly when seven or more have run. */
  lemma DecryptAmongFirst(k: nat)
    requires k <= |Gates|
    ensures Decrypt in Gates[0..k] <==> k >= 7
  {
    assert Gates[6] == Decrypt;
    if k < 7 {
      assert forall g :: g in Gates[0..k] ==> g in Gates[0..6];
    }
  }

  /** Content of at most HMAC_SIZE bytes, and only such content, is rejected by the first gate. */
  lemma ShortContentRejectedFirst(s: Suite, content: Bytes, password: string, trustedTime: Option<Instant>)
    ensures Read(s, content, password, trustedTime) == FormatError(TooShort) <==> |content| <= HMAC_SIZE
  {
  }

  /**
   * Past the length gate, the read fails the integrity check exactly when the
   * last HMAC_SIZE bytes are not the tag of the rest under the password's MAC key.
   */
  lemma MacGate(s: Suite, content: Bytes, password: string, trustedTime: Option<Instant>)
    requires |content| > HMAC_SIZE
    ensures var msg := content[..|content| - HMAC_SIZE];
            Read(s, content, password, trustedTime) == IntegrityError <==>
              s.hmacSha256(DeriveKeys(s, password).mac, msg) != content[|content| - HMAC_SIZE..]
  {
  }

  /** A missing expiry line is reported only for content whose tag verifies. */
  lemma NoNewlineAfterMac(s: Suite, content: Bytes, password: string, trustedTime: Option<Instant>)
    ensures Read(s, content, password, trustedTime) == FormatError(NoExpiryLine)
        <==> && |content| > HMAC_SIZE
             && var msg := content[..|content| - HMAC_SIZE];
                TagValid(s, DeriveKeys(s, password).mac, msg, content[|content| - HMAC_SIZE..])
                && NEWLINE !in msg
  {
    if |content| > HMAC_SIZE {
      SplitLineFails(content[..|content| - HMAC_SIZE]);
    }
  }

  /**
   * Without a trusted time a read never gets past the time gate: it ends with
   * one of the earlier failures or with `TimeUnavailable`, and never decrypts.
   */
  lemma NoTimeNoDecrypt(s: Suite, content: Bytes, password: string)
    ensures var o := Read(s, content, password, None);
            Stage(o) <= 5 && Decrypt !in Gates[0..Stage(o)]
  {
    DecryptAmongFirst(Stage(Read(s, content, password, None)));
  }

  /**
   * Decryption runs exactly when the tag verifies, the expiry line splits off
   * and parses, a trusted time is available and it is not before the expiry.
   */
  lemma DecryptGuarded(s: Suite, content: Bytes, password: string, trustedTime: Option<Instant>)
    ensures Decrypt in Gates[0..Stage(Read(s, content, password, trustedTime))]
        <==> && |content| > HMAC_SIZE
             && var msg := content[..|content| - HMAC_SIZE];
                && TagValid(s, DeriveKeys(s, password).mac, msg, content[|content| - HMAC_SIZE..])
                && SplitLine(msg).Some?
                && s.parseExpiry(SplitLine(msg).value.0).Some?
                && trustedTime.Some?
                && trustedTime.value >= s.parseExpiry(SplitLine(msg).value.0).value
  {
    var o := Read(s, content, password, trustedTime);
    DecryptAmongFirst(Stage(o));
    if |content| > HMAC_SIZE {
      var keys := DeriveKeys(s, password);
      var msg, tag := content[..|content| - HMAC_SIZE], content[|content| - HMAC_SIZE..];
      assert SplitTag(content) == Some((msg, tag));
      if TagValid(s, keys.mac, msg, tag) {
        assert o == ReadMessage(s, keys.enc, msg, trustedTime);
        if SplitLine(msg).Some? {
          var (line, blob) := SplitLine(msg).value;
          if s.parseExpiry(line).Some? && trustedTime.Some? && trustedTime.value >= s.parseExpiry(line).value {
            assert o == Release(s, keys.enc, blob);
          }
        }
      }
    }
  }

  /**
   * Whatever stem, extension and content were written, once the expiry line
   * holds no newline and parses to `t`: read with the same password before `t`
   * the lockbox reports the expiry, and without a trusted time the read aborts.
   */
  lemma WriteThenReadLocked(s: Suite, expiry: Bytes, base: string, ext: string, data: Bytes,
                            password: string, iv: Bytes, t: Instant, now: Instant)
    requires |iv| == BLOCK_SIZE
    requires NEWLINE !in expiry && s.parseExpiry(expiry) == Some(t)
    ensures var content := WriteLockbox(s, expiry, base, ext, data, password, iv).content;
            && (now < t ==> Read(s, content, password, Some(now)) == NotYetExpired(t))
            && Read(s, content, password, None) == TimeUnavailable
  {
    var keys := DeriveKeys(s, password);
    var blob := EncryptSecret(s, EncodePayload(s, base, ext, data), keys.enc, iv);
    var msg := Message(expiry, blob);
    SplitTagSeal(s, keys.mac, msg);
    SplitLineMessage(expiry, blob);
  }

  /**
   * Reading back what was written with the same password, once the expiry line
   * holds no newline and parses to `t` and the stem and extension hold no
   * colon: from `t` on the read releases the original content under the
   * recovered name.
   */
  lemma WriteThenRead(s: Suite, expiry: Bytes, base: string, ext: string, data: Bytes,
                      password: string, iv: Bytes, t: Instant, now: Instant)
    requires Sound(s) && |iv| == BLOCK_SIZE
    requires NEWLINE !in expiry && s.parseExpiry(expiry) == Some(t)
    requires COLON !in base && COLON !in ext
    ensures var content := WriteLockbox(s, expiry, base, ext, data, password, iv).content;
            t <= now ==> Read(s, content, password, Some(now)) == Released(RecoveredName(base, ext), data)
  {
    var keys := DeriveKeys(s, password);
    var payload := EncodePayload(s, base, ext, data);
    var blob := EncryptSecret(s, payload, keys.enc, iv);
    var msg := Message(expiry, blob);
    SplitTagSeal(s, keys.mac, msg);
    SplitLineMessage(expiry, blob);
    DecryptEncrypt(s, payload, keys.enc, iv);
    PayloadRoundTrip(s, base, ext, data);
  }

  /**
   * A lockbox read with a password other than the writer's passes the integrity
   * check only if the two MAC keys give the same HMAC on the written message.
   */
  lemma WrongPasswordRejected(s: Suite, expiry: Bytes, base: string, ext: string, data: Bytes,
                              password: string, iv: Bytes, other: string, trustedTime: Option<Instant>)
    requires |iv| == BLOCK_SIZE
    ensures var keys := DeriveKeys(s, password);
            var msg := Message(expiry, EncryptSecret(s, EncodePayload(s, base, ext, data), keys.enc, iv));
            var content := WriteLockbox(s, expiry, base, ext, data, password, iv).content;
            Read(s, content, other, trustedTime) != IntegrityError ==>
              s.hmacSha256(DeriveKeys(s, other).mac, msg) == s.hmacSha256(keys.mac, msg)
  {
    var keys := DeriveKeys(s, password);
    var msg := Message(expiry, EncryptSecret(s, EncodePayload(s, base, ext, data), keys.enc, iv));
    SplitTagSeal(s, keys.mac, msg);
  }

  /**
   * Replacing the written message by any other non-empty message while keeping
   * the written tag passes the integrity check only through an HMAC collision
   * under the writer's MAC key.
   */
  lemma TamperedMessageRejected(s: Suite, expiry: Bytes, base: string, ext: string, data: Bytes,
                                password: string, iv: Bytes, forged: Bytes, trustedTime: Option<Instant>)
    requires |iv| == BLOCK_SIZE
    ensures var keys := DeriveKeys(s, password);
            var msg := Message(expiry, EncryptSecret(s, EncodePayload(s, base, ext, data), keys.enc, iv));
            var content := WriteLockbox(s, expiry, base, ext, data, password, iv).content;
            var tampered := forged + content[|content| - HMAC_SIZE..];
            forged != [] && forged != msg && Read(s, tampered, password, trustedTime) != IntegrityError ==>
              Collides((m: Bytes) => s.hmacSha256(keys.mac, m), forged, msg)
  {
    var keys := DeriveKeys(s, password);
    var msg := Message(expiry, EncryptSecret(s, EncodePayload(s, base, ext, data), keys.enc, iv));
    var content := WriteLockbox(s, expiry, base, ext, data, password, iv).content;
    var tampered := forged + content[|content| - HMAC_SIZE..];
    SplitTagSeal(s, keys.mac, msg);
    if |tampered| > HMAC_SIZE {
      assert tampered[..|tampered| - HMAC_SIZE] == forged;
      assert tampered[|tampered| - HMAC_SIZE..] == content[|content| - HMAC_SIZE..];
    }
  }

  /**
   * Keeping the written message but replacing its tag by any other 32 bytes
   * always fails the integrity check.
   */
  lemma TamperedTagRejected(s: Suite, expiry: Bytes, base: string, ext: string, data: Bytes,
                            password: string, iv: Bytes, tag: Digest, trustedTime: Option<Instant>)
    requires |iv| == BLOCK_SIZE
    ensures var keys := DeriveKeys(s, password);
            var msg := Message(expiry, EncryptSecret(s, EncodePayload(s, base, ext, data), keys.enc, iv));
            var content := WriteLockbox(s, expiry, base, ext, data, password, iv).content;
            tag != content[|content| - HMAC_SIZE..] ==>
              Read(s, msg + tag, password, trustedTime) == IntegrityError
  {
    var keys := DeriveKeys(s, password);
    var msg := Message(expiry, EncryptSecret(s, EncodePayload(s, base, ext, data), keys.enc, iv));
    SplitTagSeal(s, keys.mac, msg);
    var tampered := msg + tag;
    assert tampered[..|tampered| - HMAC_SIZE] == msg;
    assert tampered[|tampered| - HMAC_SIZE..] == tag;
  }

  /** The expiry line `01/01/2000 00:00:00` in ASCII. */
  const SCENARIO_EXPIRY: Bytes :=
    [0x30, 0x31, 0x2F, 0x30, 0x31, 0x2F, 0x32, 0x30, 0x30, 0x30, 0x20,
     0x30, 0x30, 0x3A, 0x30, 0x30, 0x3A, 0x30, 0x30]

  /** The bytes of `hello`. */
  const HELLO: Bytes := [0x68, 0x65, 0x6C, 0x6C, 0x6F]

  /**
   * The file `a.txt` holding `hello`, locked with password `p1` until
   * `01/01/2000 00:00:00`, is written to `a.lb`; read with `p1` at any trusted
   * time from that expiry on, it is released as `a_decrypted.txt` with content
   * `hello`.
   */
  lemma ScenarioRoundTrip(s: Suite, iv: Bytes, t: Instant, now: Instant)
    requires Sound(s) && |iv| == BLOCK_SIZE
    requires s.parseExpiry(SCENARIO_EXPIRY) == Some(t) && t <= now
    ensures var lb := WriteLockbox(s, SCENARIO_EXPIRY, "a", "txt", HELLO, "p1", iv);
            && lb.fileName == "a.lb"
            && Read(s, lb.content, "p1", Some(now)) == Released("a_decrypted.txt", HELLO)
  {
    assert NEWLINE !in SCENARIO_EXPIRY;
    WriteThenRead(s, SCENARIO_EXPIRY, "a", "txt", HELLO, "p1", iv, t, now);
    ScenarioNames();
  }

  lemma ScenarioNames()
    ensures LockboxName("a") == "a.lb" && RecoveredName("a", "txt") == "a_decrypted.txt"
  {
  }
}
