/**
 The part of ECMAScript's `Array.prototype.slice` that the to-do screen relies on.
 Indices are JavaScript numbers: a negative index counts back from the end of the
 array and every index is clamped into `[0, length]`, so `slice` never fails.
 */
module JsArray {

  /** Resolves a relative index argument of `slice` against an array of length `n`. */
  function RelativeIndex(i: int, n: nat): (r: nat)
    ensures r <= n
    ensures 0 <= i <= n ==> r == i
    ensures i < 0 && 0 <= n + i ==> r == n + i
    ensures n + i < 0 ==> r == 0
    ensures n < i ==> r == n
  {
    if i < 0 then (if n + i < 0 then 0 else n + i)
    else if i > n then n
    else i
  }

  /** `s.slice(start, end)`: the elements from the resolved start up to, not
      including, the resolved end; empty when the end does not lie past the start. */
  function Slice<T>(s: seq<T>, start: int, end: int): (r: seq<T>)
    ensures |r| <= |s|
    ensures 0 <= start <= end <= |s| ==> r == s[start..end]
    ensures 0 < |s| && start == 0 && end == -1 ==> r == s[..|s| - 1]
    ensures |s| == 0 ==> r == []
  {
    var from, to := RelativeIndex(start, |s|), RelativeIndex(end, |s|);
    if from < to then s[from..to] else []
  }

  /** All elements but the last one, as `s.slice(0, -1)` gives them. */
  function DropLast<T>(s: seq<T>): (r: seq<T>)
    ensures |s| == 0 ==> r == []
    ensures 0 < |s| ==> |r| == |s| - 1 && r + [s[|s| - 1]] == s
  {
    Slice(s, 0, -1)
  }
}
