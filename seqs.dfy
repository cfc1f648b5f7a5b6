/**
 * Searching and splitting sequences as Python's `bytes.split(sep, maxsplit)` and
 * `str.split(sep, maxsplit)` do for a one-element separator. The container's
 * newline split (maxsplit 1) and the payload's `:` split (maxsplit 2) are both
 * instances of `Split`; `Join` is its reference inverse.
 */
module Seqs {
  import opened Common

  /** The index of the first occurrence of `x` in `s`, if any. */
  function IndexOf<T(==)>(s: seq<T>, x: T): (r: Option<nat>)
    ensures r.Some? ==> r.value < |s| && s[r.value] == x
  {
    if |s| == 0 then None
    else if s[0] == x then Some(0)
    else match IndexOf(s[1..], x)
      case None => None
      case Some(i) => Some(i + 1)
  }

  /** No index is found exactly when `x` does not occur. */
  lemma {:induction false} IndexOfNone<T>(s: seq<T>, x: T)
    ensures IndexOf(s, x).None? <==> x !in s
  {
    if |s| > 0 && s[0] != x {
      IndexOfNone(s[1..], x);
      assert s == [s[0]] + s[1..];
    }
  }

  /** The index found is the first occurrence: `x` does not occur before it. */
  lemma {:induction false} IndexOfFirst<T>(s: seq<T>, x: T)
    requires IndexOf(s, x).Some?
    ensures x !in s[..IndexOf(s, x).value]
  {
    if s[0] != x {
      IndexOfFirst(s[1..], x);
      assert s[..IndexOf(s, x).value] == [s[0]] + s[1..][..IndexOf(s[1..], x).value];
    }
  }

  /** When `x` does not occur in `a`, the first `x` of `a + [x] + b` is the one after `a`. */
  lemma {:induction false} IndexOfAfter<T>(a: seq<T>, x: T, b: seq<T>)
    requires x !in a
    ensures IndexOf(a + [x] + b, x) == Some(|a|)
    decreases |a|
  {
    if |a| > 0 {
      assert (a + [x] + b)[1..] == a[1..] + [x] + b;
      IndexOfAfter(a[1..], x, b);
    }
  }

  /**
   * `s.split(sep, maxsplit)`: split at the first `maxsplit` occurrences of `sep`
   * from the left; the last part keeps the rest of `s` unsplit.
   */
  function Split<T(==)>(s: seq<T>, sep: T, maxsplit: nat): (parts: seq<seq<T>>)
    ensures 1 <= |parts| <= maxsplit + 1
    decreases maxsplit
  {
    if maxsplit == 0 then [s]
    else match IndexOf(s, sep)
      case None => [s]
      case Some(i) => [s[..i]] + Split(s[i + 1..], sep, maxsplit - 1)
  }

  /** Every part but the last ends at a separator, so contains none. */
  lemma {:induction false} SplitPartFree<T>(s: seq<T>, sep: T, maxsplit: nat, k: nat)
    requires k < |Split(s, sep, maxsplit)| - 1
    ensures sep !in Split(s, sep, maxsplit)[k]
    decreases maxsplit, 1
  {
    var found := IndexOf(s, sep);
    assert maxsplit > 0 && found.Some?;
    var i := found.value;
    IndexOfFirst(s, sep);
    Reassemble(s, i);
    SplitPartFreeAround(s[..i], sep, s[i + 1..], maxsplit, k);
  }

  lemma {:induction false} SplitPartFreeAround<T>(before: seq<T>, sep: T, after: seq<T>, maxsplit: nat, k: nat)
    requires sep !in before && maxsplit > 0
    requires k < |Split(before + [sep] + after, sep, maxsplit)| - 1
    ensures sep !in Split(before + [sep] + after, sep, maxsplit)[k]
    decreases maxsplit, 0
  {
    SplitAfter(before, sep, after, maxsplit);
    if k > 0 {
      SplitPartFree(after, sep, maxsplit - 1, k - 1);
    }
  }

  /** `sep.join(parts)`. */
  function Join<T>(parts: seq<seq<T>>, sep: T): seq<T>
  {
    if |parts| == 0 then []
    else if |parts| == 1 then parts[0]
    else parts[0] + [sep] + Join(parts[1..], sep)
  }

  /** A sequence is the part before index `i`, the element at `i` and the part after it. */
  lemma Reassemble<T>(s: seq<T>, i: nat)
    requires i < |s|
    ensures s[..i] + [s[i]] + s[i + 1..] == s
  {
  }

  /**
   * Joining parts none of which, except possibly the last, contains the separator,
   * and splitting again at most `|parts| - 1` times, gives back exactly those parts.
   */
  lemma {:induction false} SplitJoin<T>(parts: seq<seq<T>>, sep: T)
    requires |parts| >= 1
    requires forall i :: 0 <= i < |parts| - 1 ==> sep !in parts[i]
    ensures Split(Join(parts, sep), sep, |parts| - 1) == parts
    decreases |parts|
  {
    if |parts| > 1 {
      var head, tail := parts[0], parts[1..];
      var joinedTail := Join(tail, sep);
      assert Join(parts, sep) == head + [sep] + joinedTail;
      SplitAfter(head, sep, joinedTail, |parts| - 1);
      SplitJoin(tail, sep);
      HeadTail(parts);
    }
  }

  lemma HeadTail<T>(s: seq<T>)
    requires |s| > 0
    ensures [s[0]] + s[1..] == s
  {
  }

  /** Splitting `a + [sep] + b` where `a` holds no separator: `a` is the first part. */
  lemma SplitAfter<T>(a: seq<T>, sep: T, b: seq<T>, maxsplit: nat)
    requires sep !in a && maxsplit > 0
    ensures Split(a + [sep] + b, sep, maxsplit) == [a] + Split(b, sep, maxsplit - 1)
  {
    var s := a + [sep] + b;
    IndexOfAfter(a, sep, b);
    assert s[..|a|] == a;
    assert s[|a| + 1..] == b;
  }

  /** One separator after a separator-free prefix adds one to the count of the suffix. */
  lemma CountAround<T>(a: seq<T>, x: T, b: seq<T>)
    requires x !in a
    ensures multiset(a + [x] + b)[x] == multiset(b)[x] + 1
  {
    assert multiset(a + [x] + b) == multiset(a) + multiset([x]) + multiset(b);
  }

  /** The number of parts is one more than the number of separators used, capped by `maxsplit`. */
  lemma {:induction false} SplitCount<T>(s: seq<T>, sep: T, maxsplit: nat)
    ensures |Split(s, sep, maxsplit)| == Min(maxsplit, multiset(s)[sep]) + 1
    decreases maxsplit, 1
  {
    var found := IndexOf(s, sep);
    if maxsplit > 0 && found.Some? {
      var i := found.value;
      IndexOfFirst(s, sep);
      SplitCountAround(s[..i], sep, s[i + 1..], maxsplit);
      Reassemble(s, i);
    } else if maxsplit > 0 {
      IndexOfNone(s, sep);
      assert multiset(s)[sep] == 0;
    }
  }

  lemma {:induction false} SplitCountAround<T>(before: seq<T>, sep: T, after: seq<T>, maxsplit: nat)
    requires sep !in before && maxsplit > 0
    ensures |Split(before + [sep] + after, sep, maxsplit)|
         == Min(maxsplit, multiset(before + [sep] + after)[sep]) + 1
    decreases maxsplit, 0
  {
    SplitAfter(before, sep, after, maxsplit);
    SplitCount(after, sep, maxsplit - 1);
    CountAround(before, sep, after);
  }
}
