/**
 The `truncate` stage: a cap on the number of code points.
 */
module Truncation {

  /** The first `n` code points of `s`, or all of them when there are fewer. */
  function TakeRunes(s: string, n: int): (r: string)
    ensures |r| == if n <= 0 then 0 else if n < |s| then n else |s|
    ensures r == s[..|r|]
    decreases |s|
  {
    if n <= 0 || |s| == 0 then [] else [s[0]] + TakeRunes(s[1..], n - 1)
  }

  /** `truncate` as written: when the name has more than `length` code points,
      the copy loop only stops once its counter exceeds `length`, so
      `length + 1` code points survive. */
  function Truncate(source: string, length: int): (r: string)
    ensures |source| <= length ==> r == source
    ensures |source| > length ==> |r| == (if length < 0 then 0 else length + 1)
    ensures r == source[..|r|]
  {
    if |source| > length then TakeRunes(source, length + 1) else source
  }

  /** The cap the constants' names promise: at most `length` code points. */
  function TruncateIntended(source: string, length: int): (r: string)
    ensures |source| <= length ==> r == source
    ensures |source| > length ==> |r| == (if length < 0 then 0 else length)
    ensures r == source[..|r|]
  {
    if |source| > length then TakeRunes(source, length) else source
  }

  /** Whenever the as-written truncation cuts, it keeps one code point more
      than the limit; the intended one never exceeds it. */
  lemma TruncateOffByOne(s: string, length: nat)
    requires |s| > length
    ensures |Truncate(s, length)| == length + 1 > length
    ensures |TruncateIntended(s, length)| == length
    ensures Truncate(s, length) == TruncateIntended(s, length) + [s[length]]
  {
  }

  /** Truncating twice is truncating once, for both variants. */
  lemma TruncateIdempotent(s: string, length: int)
    ensures Truncate(Truncate(s, length), length) == Truncate(s, length)
    ensures TruncateIntended(TruncateIntended(s, length), length) == TruncateIntended(s, length)
  {
  }
}
