# Lockbox: a verified model of the time-locked container format

`lockbox.py` locks a file until an expiry date. Writing a lockbox does these steps:

- It derives an encryption key and a MAC key from a password (`derive_keys`).
- It encodes the file's stem, extension and base64 content as the text `base:ext:b64`.
- It encrypts that text with AES-CBC under a random IV, with PKCS#7 padding (`encrypt_secret`).
- It writes `expiry || 0x0A || IV || ciphertext || HMAC-SHA256 tag` to `<stem>.lb`.

Reading a lockbox passes ten gates in a fixed order, and the first gate that fails ends the read:

1. length check
2. HMAC verification
3. newline split
4. expiry parse
5. trusted (network) time fetch
6. `now < expiry` check
7. decryption (`decrypt_secret`)
8. part count
9. base64 decoding
10. output name `<stem>_decrypted.<ext>`

The model is in plain Dafny modules:

- `Common`: bytes, sizes, `Option`/`Result` and the format faults.
- `Seqs`: Python's `split(sep, maxsplit)`, used for both the newline and the `:` split.
- `Primitives`: the external primitives, and the facts `Sound` assumes about them.
- `Padding`: PKCS#7, modelled concretely.
- `Keys`, `Envelope`, `Container`, `Payload` and `Names`: one module per part of the format.
- `Engine`: the write, and the read both as a pure gate chain (`Read`) and as the early-return procedure (`ReadLockbox`). `ReadLockbox` also reports which gates ran.
- `ToySuite`: a concrete, insecure suite of primitives that satisfies `Sound`. It shows the assumed facts are consistent.

SHA-256, HMAC-SHA256, raw AES-CBC, UTF-8, base64 and the expiry parser are arrow-typed fields of a `Suite` value, passed as a parameter. Lemmas that need facts about them require `Sound(s)`. `Sound(s)` states only three things:

- CBC encryption and decryption keep the length of block-aligned data, and decryption undoes encryption.
- UTF-8 decoding undoes encoding.
- base64 decoding undoes encoding.

Digests are 32 bytes by typing (`Digest`). Collision-freedom is never assumed. Where security depends on it, the lemma concludes that a collision (`Collides`) would be needed.

In these points the model follows the code:

- `decrypt_secret` fails, and the read reports a decryption error, in these cases:
  - the blob is shorter than an IV;
  - the ciphertext is not whole blocks;
  - the padding is malformed;
  - the plaintext is not UTF-8.

  Python's `UnicodeDecodeError` is a `ValueError`, so the program catches it at lockbox.py:206.
- Keys are derived before the length check (lockbox.py:152). This is not observable.
- A `:` in the stem or extension is accepted on write but breaks the read's three-way split. `Payload.PayloadRoundTrip` states exactly when the payload round-trips.

## Model

| member | source | states |
|---|---|---|
| Seqs.Split | lockbox.py:174 | `split(sep, maxsplit)` yields at least one and at most `maxsplit + 1` parts |
| Seqs.SplitCount | lockbox.py:212-214 | the number of parts is one plus the number of separators, capped at `maxsplit` |
| Seqs.SplitPartFree | lockbox.py:212-215 | every part except the last is free of the separator |
| Seqs.SplitAfter | lockbox.py:174 | a separator-free prefix followed by a separator is split off as the first part |
| Seqs.SplitJoin | lockbox.py:212 | splitting the join of separator-free parts gives back exactly those parts |
| Padding.Pad | lockbox.py:30 | the padded data is whole blocks, 1 to 16 bytes longer than the input, and starts with the input |
| Padding.Unpad | lockbox.py:43 | a successful unpad had whole blocks as input and strips between 1 and 16 bytes off its end, keeping the rest as it was |
| Padding.UnpadPad | lockbox.py:43 | `unpad(pad(x)) == x` |
| Padding.PadUnpad | lockbox.py:43 | padding is canonical: whatever unpads to `x` is exactly `pad(x)` |
| Keys.EncInput | lockbox.py:21 | the input hashed for the encryption key is never the password-bytes-plus-`mac` input of any password |
| Keys.MacInput | lockbox.py:22 | the input hashed for the MAC key is never the password-bytes-plus-`enc` input of any password |
| Keys.DeriveKeys | lockbox.py:18-23 | derivation always succeeds (its 32-byte lengths come from the `Digest` type); the two keys of one password coincide only through a SHA-256 collision |
| Keys.DomainSeparated | lockbox.py:21-22 | the hash input for an encryption key never equals the one for a MAC key, for any two passwords |
| Keys.EncMacKeysDiffer | lockbox.py:21-22 | an encryption key equal to a MAC key implies a SHA-256 collision |
| Keys.DistinctPasswordsDistinctKeys | lockbox.py:18-23 | distinct passwords share a MAC key or an encryption key only through a SHA-256 collision |
| Envelope.EncryptSecret | lockbox.py:26-33 | the envelope starts with the 16-byte IV |
| Envelope.EncryptLayout | lockbox.py:28-33 | the ciphertext after the IV is whole blocks, strictly longer than the plaintext bytes and at most one block longer |
| Envelope.DecryptSecret | lockbox.py:36-43 | decryption succeeds only on a blob of at least one block whose length is a multiple of 16 |
| Envelope.DecryptEncrypt | lockbox.py:36-43 | decrypting an envelope with the key it was made with gives back the plaintext |
| Envelope.DecryptNeedsCiphertext | lockbox.py:39-43 | a blob that decrypts holds at least two blocks: the IV and one ciphertext block |
| Container.Message | lockbox.py:103 | the authenticated message is one byte longer than expiry and blob together; `SplitLineMessage` recovers both parts |
| Container.Seal | lockbox.py:103-112 | the file is the message followed by a 32-byte tag |
| Container.SplitTag | lockbox.py:155-160 | content of at most 32 bytes is rejected; otherwise message and tag concatenate back to the content |
| Container.TagValid | lockbox.py:163-166 | a tag verifies exactly when message and tag are what the writer seals for that message |
| Container.SplitTagSeal | lockbox.py:160-166 | sealed content splits into the original message and a tag that verifies under the same key |
| Container.SplitLine | lockbox.py:173-177 | a successful expiry-line split drops only the one separating newline |
| Container.SplitLineFails | lockbox.py:173-177 | the expiry-line split fails exactly when the message has no newline |
| Container.SplitLineParts | lockbox.py:174 | a successful split cuts at the first newline and loses nothing |
| Container.SplitLineMessage | lockbox.py:174 | the message splits back into expiry and blob exactly when the expiry has no newline |
| Payload.EncodePayload | lockbox.py:80 | the encoded payload always holds at least two colons |
| Payload.PartCountFails | lockbox.py:212-214 | the part-count gate fails exactly when the decrypted text has fewer than two colons |
| Payload.DecodePayload | lockbox.py:212-218 | decoding fails only with a part-count or base64 fault, and a decoded stem and extension never contain a colon |
| Payload.SplitEncoded | lockbox.py:212-215 | a colon-free stem and extension split back out of the encoded text together with the base64 part |
| Payload.PayloadRoundTrip | lockbox.py:212-218 | the payload decodes to its stem, extension and content exactly when stem and extension are colon-free |
| Names.LockboxName | lockbox.py:83 | the written lockbox name ends in `.lb` once lower-cased, so the case-insensitive test on opening accepts it |
| Names.NormalizeLockboxName | lockbox.py:132-137 | empty input is rejected; the opened name starts with the input and ends in `.lb` in some case |
| Names.EndsWithLbIff | lockbox.py:137 | the case-insensitive test accepts exactly names ending in a dot, `l`/`L` and `b`/`B` |
| Names.NormalizeIdempotent | lockbox.py:137 | normalising a name the program opened gives back that name |
| Names.FindsWrittenLockbox | lockbox.py:137 | the written name, or its stem when the stem does not end in `.lb`, opens the written lockbox |
| Names.NormalizeAppendsIff | lockbox.py:137 | `.lb` is appended exactly when the input does not already end with it, in any case |
| Names.RecoveredName | lockbox.py:227 | the recovered name starts with the stem and `_decrypted`, and ends with `.` and the extension when there is one |
| Names.RecoveredNameIff | lockbox.py:227 | the recovered name has no extension part exactly when the stored extension is empty |
| Names.RecoveredNotLockbox | lockbox.py:227 | the recovered file's name never equals the lockbox name of the same stem |
| Engine.WriteLockbox | lockbox.py:97-112 | the file is named `<stem>.lb`, starts with the expiry and a newline, and is longer than expiry plus tag |
| Engine.Read | lockbox.py:152-170 | every outcome past the integrity gate comes from content longer than the tag whose tag verifies under the password's MAC key |
| Engine.ReadMessage | lockbox.py:172-201 | past the newline gate the message holds a newline; past the time gate a trusted time exists; not-yet-expired means the trusted time is before the expiry |
| Engine.Release | lockbox.py:203-208 | once the expiry is reached the read ends at decryption or later; past decryption the blob is whole blocks of at least one block |
| Engine.Restore | lockbox.py:210-227 | the read ends at the part count or later, and at the part count exactly when the decrypted text has fewer than two colons |
| Engine.ReadLockbox | lockbox.py:152-227 | the early-return read gives the outcome of the gate chain, having run exactly the gates up to the deciding one |
| Engine.ReadMessageGates | lockbox.py:172-201 | after the MAC check, the gates run from the newline split on, in order |
| Engine.ReleaseGates | lockbox.py:203-208 | once the expiry is reached, the gates run from decryption on, in order |
| Engine.RestoreGates | lockbox.py:210-227 | after decryption, the part-count, base64 and output-name gates run in order, returning at the first failure |
| Engine.ShortContentRejectedFirst | lockbox.py:155-157 | content of at most 32 bytes, and only such content, is rejected as too short |
| Engine.MacGate | lockbox.py:160-170 | past the length gate, the integrity error happens exactly when the tag is not the HMAC of the rest |
| Engine.NoNewlineAfterMac | lockbox.py:172-177 | the missing-expiry-line error happens exactly when the MAC verified and the message has no newline |
| Engine.NoTimeNoDecrypt | lockbox.py:189-196 | without a trusted time the read stops at the time gate at the latest and never decrypts |
| Engine.DecryptGuarded | lockbox.py:199-208 | decryption runs exactly when the MAC verified, the expiry parsed, a trusted time exists and it is not before the expiry |
| Engine.WriteThenReadLocked | lockbox.py:189-201 | whatever stem and extension were written, the lockbox is reported not yet expired before its expiry and the read aborts without a trusted time |
| Engine.WriteThenRead | lockbox.py:152-227 | with colon-free stem and extension, what was written is released intact under the recovered name once its expiry is reached |
| Engine.WrongPasswordRejected | lockbox.py:162-170 | another password passes the MAC check only if its MAC key gives the same HMAC on the written message |
| Engine.TamperedMessageRejected | lockbox.py:162-170 | a changed message kept with the written tag passes only through an HMAC collision |
| Engine.TamperedTagRejected | lockbox.py:162-170 | the written message with any other tag always fails the integrity check |
| Engine.ScenarioRoundTrip | lockbox.py:212-227 | `a.txt` holding `hello`, locked with `p1`, is written to `a.lb` and released intact as `a_decrypted.txt` once its expiry is reached |

## Left out

- Prompts, printed messages, the `while True` input loops, file reading and writing, and the menu in `main`: these are I/O. The write takes the expiry line, stem, extension and content as parameters. The read takes the file's bytes.
- `os.path.basename`, `os.path.splitext` and `lstrip('.')` (lockbox.py:76-78) are not modelled. The write receives the stem and the dot-less extension directly.
- `get_random_bytes`: the IV is a parameter of the write. Freshness and uniqueness of IVs are probabilistic and not modelled.
- The NTP request, `fromtimestamp` and the local time zone: the trusted time is an `Option<Instant>` parameter, where `None` means the fetch failed. The parsed expiry is an `Instant` from `Suite.parseExpiry`. The calendar rules of `strptime` are not modelled. The write-side validation loop (lockbox.py:58-64) is left out with the other prompts.
- Engine.WriteLockbox: takes the expiry as bytes, so `expiry_str.encode('ascii')` is not modelled. A validated expiry with non-ASCII digits would make the program raise there. `input()` never returns a newline, so the round trip lemmas require a newline-free expiry.
- AES, SHA-256 and HMAC internals, and the constant-time comparison in `HMAC.verify`, which is a timing property.
- UTF-8 and base64 are abstract; only their round trips are assumed. For example, `b64decode` silently drops characters outside the alphabet; the model leaves this to the suite.
- Names.Lower: folds ASCII letters only, unlike `str.lower()`. The only use is the `.lb` test. For that test it makes no difference, because no other character lowercases to `.`, `l` or `b`.
