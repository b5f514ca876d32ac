/**
 * Python slice semantics for sequences, and the page-list trim `jpgs[1:-1]`
 * that drops the leading and trailing thumbnail links.
 */
module Slices {

  /** A slice bound as Python normalises it against a sequence of length `n`:
      negative bounds count from the end, and the result is clamped to [0, n]. */
  function Bound(i: int, n: nat): (k: nat)
    ensures k <= n
  {
    if i < 0 then (if i + n < 0 then 0 else i + n)
    else if i > n then n
    else i
  }

  /** `s[start:stop]` with Python semantics: never fails, empty when the
      normalised bounds cross. */
  function Slice<T>(s: seq<T>, start: int, stop: int): seq<T>
  {
    var lo, hi := Bound(start, |s|), Bound(stop, |s|);
    if lo < hi then s[lo..hi] else []
  }

  /** `jpgs[1:-1]`: the extracted links without the first and the last. */
  function Trim<T>(s: seq<T>): seq<T>
  {
    Slice(s, 1, -1)
  }

  /** What Python's bound normalisation means: bounds inside the sequence
      select `s[i..j]`, a negative bound counts from the end, bounds beyond
      either end are clamped, and crossed bounds give the empty slice. */
  lemma SliceNormalisation<T>(s: seq<T>, i: int, j: int)
    ensures 0 <= i <= j <= |s| ==> Slice(s, i, j) == s[i..j]
    ensures -|s| <= i < 0 ==> Slice(s, i, j) == Slice(s, i + |s|, j)
    ensures -|s| <= j < 0 ==> Slice(s, i, j) == Slice(s, i, j + |s|)
    ensures i < -|s| ==> Slice(s, i, j) == Slice(s, 0, j)
    ensures j > |s| ==> Slice(s, i, j) == Slice(s, i, |s|)
    ensures i >= |s| || j < -|s| || 0 <= j <= i ==> Slice(s, i, j) == []
  {
  }

  /** Trimming a list of length M leaves max(0, M - 2) entries, entry i being
      the original entry i + 1. */
  lemma TrimShape<T>(s: seq<T>)
    ensures |Trim(s)| == if |s| < 2 then 0 else |s| - 2
    ensures forall i :: 0 <= i < |Trim(s)| ==> Trim(s)[i] == s[i + 1]
  {
  }

  /** Lists of length 0, 1 or 2 trim to the empty list instead of failing. */
  lemma TrimShort<T>(s: seq<T>)
    requires |s| <= 2
    ensures Trim(s) == []
  {
  }

  /** Trim is undone by putting back the first and the last entry. */
  lemma TrimRestore<T>(s: seq<T>)
    requires |s| >= 2
    ensures s == [s[0]] + Trim(s) + [s[|s| - 1]]
  {
  }
}
