/**
 * File-name rules: the lockbox written for a file is named after the file's
 * stem; the name typed to open one gets `.lb` appended unless it already ends
 * with `.lb` in any letter case; the recovered file is named
 * `<stem>_decrypted.<ext>`, or `<stem>_decrypted` without an extension.
 */
module Names {
  import opened Common

  const LB_SUFFIX: string := ".lb"
  const DECRYPTED_SUFFIX: string := "_decrypted"

  /** `base + '.lb'`: the lockbox written for a file with stem `base`. */
  function LockboxName(base: string): (name: string)
    ensures EndsWith(Lower(name), LB_SUFFIX)
  {
    LowerAppendLb(base);
    base + LB_SUFFIX
  }

  /** Lower-cases one ASCII letter; every other character is unchanged. */
  function AsciiLower(c: char): char
  {
    if 'A' <= c <= 'Z' then (c as int + 32) as char else c
  }

  /** `str.lower()`, folding ASCII letters only. */
  function Lower(s: string): string
  {
    seq(|s|, i requires 0 <= i < |s| => AsciiLower(s[i]))
  }

  /** `str.endswith(suffix)`. */
  predicate EndsWith(s: string, suffix: string)
  {
    |s| >= |suffix| && s[|s| - |suffix|..] == suffix
  }

  /**
   * The name the program opens for what the user typed: empty input is
   * rejected, a name already ending in `.lb` (any case) is kept, any other gets
   * `.lb` appended.
   */
  function NormalizeLockboxName(input: string): (r: Option<string>)
    ensures r.None? <==> input == []
    ensures r.Some? ==> EndsWith(Lower(r.value), LB_SUFFIX) && |r.value| >= |input| && r.value[..|input|] == input
  {
    if input == [] then None
    else if EndsWith(Lower(input), LB_SUFFIX) then Some(input)
    else
      LowerAppendLb(input);
      Some(input + LB_SUFFIX)
  }

  /** `f"{base}_decrypted.{ext}"` when there is an extension, else `f"{base}_decrypted"`. */
  function RecoveredName(base: string, ext: string): (name: string)
    ensures |name| >= |base| + |DECRYPTED_SUFFIX| && name[..|base| + |DECRYPTED_SUFFIX|] == base + DECRYPTED_SUFFIX
    ensures ext != [] ==> EndsWith(name, "." + ext)
  {
    if ext != [] then base + DECRYPTED_SUFFIX + "." + ext else base + DECRYPTED_SUFFIX
  }

  lemma LowerAppendLb(s: string)
    ensures EndsWith(Lower(s + LB_SUFFIX), LB_SUFFIX)
  {
    var t := Lower(s + LB_SUFFIX);
    assert t[|t| - 3..] == [t[|s|], t[|s| + 1], t[|s| + 2]];
  }

  /**
   * The case-insensitive `.lb` test looks only at the last three characters:
   * a dot, an `l` or `L`, a `b` or `B`.
   */
  lemma EndsWithLbIff(s: string)
    ensures EndsWith(Lower(s), LB_SUFFIX)
        <==> |s| >= 3 && s[|s| - 3] == '.' && s[|s| - 2] in "lL" && s[|s| - 1] in "bB"
  {
    var t := Lower(s);
    if |s| >= 3 {
      assert t[|t| - 3..] == [t[|s| - 3], t[|s| - 2], t[|s| - 1]];
    }
  }

  /** Opening a name the program produced gives back that name. */
  lemma NormalizeIdempotent(input: string)
    requires NormalizeLockboxName(input).Some?
    ensures var name := NormalizeLockboxName(input).value;
            NormalizeLockboxName(name) == Some(name)
  {
  }

  /**
   * Typing the written lockbox's name, or just the stem it was named after,
   * opens that lockbox, provided the stem is non-empty and does not itself end
   * with `.lb`.
   */
  lemma FindsWrittenLockbox(base: string)
    ensures NormalizeLockboxName(LockboxName(base)) == Some(LockboxName(base))
    ensures base != [] && !EndsWith(Lower(base), LB_SUFFIX)
        ==> NormalizeLockboxName(base) == Some(LockboxName(base))
  {
  }

  /** `.lb` is appended exactly when a non-empty input does not already end with it in any case. */
  lemma NormalizeAppendsIff(input: string)
    requires input != []
    ensures NormalizeLockboxName(input) == Some(input + LB_SUFFIX)
        <==> !EndsWith(Lower(input), LB_SUFFIX)
  {
    if EndsWith(Lower(input), LB_SUFFIX) {
      assert |input + LB_SUFFIX| != |input|;
    }
  }

  /** The recovered name carries no extension part exactly when the stored extension is empty. */
  lemma RecoveredNameIff(base: string, ext: string)
    ensures RecoveredName(base, ext) == base + DECRYPTED_SUFFIX <==> ext == []
  {
    if ext != [] {
      assert |RecoveredName(base, ext)| > |base + DECRYPTED_SUFFIX|;
    }
  }

  /** Recovering a file never reuses the name of the lockbox written for the same stem. */
  lemma RecoveredNotLockbox(base: string, ext: string)
    ensures RecoveredName(base, ext) != LockboxName(base)
  {
    assert RecoveredName(base, ext)[|base|] == '_';
    assert LockboxName(base)[|base|] == '.';
  }
}
