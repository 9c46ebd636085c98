/** `Array.prototype.slice(start, end)` on a list, as the dashboard uses it for pages and palettes. */
module Slices {

  function Min(a: int, b: int): int { if a < b then a else b }

  function Max(a: int, b: int): int { if a < b then b else a }

  /**
   * Where a `slice` bound lands in a list of length n: a negative bound counts
   * from the end, and the result is clamped to 0..n.
   */
  function RelativeIndex(rel: int, n: nat): (k: nat)
    ensures k <= n
    ensures 0 <= rel ==> k == Min(rel, n)
    ensures rel < 0 ==> k == Max(n + rel, 0)
  {
    if rel < 0 then (if n + rel < 0 then 0 else n + rel) else if rel < n then rel else n
  }

  /** `r` is the run of `s` that begins at position `from`. */
  ghost predicate IsRunAt<T>(r: seq<T>, s: seq<T>, from: int) {
    0 <= from <= |s| - |r| && r == s[from..from + |r|]
  }

  /** The elements from `start` up to, not including, `end`; empty when the bounds cross. */
  function Slice<T>(s: seq<T>, start: int, end: int): (r: seq<T>)
    ensures exists from :: IsRunAt(r, s, from)
    ensures 0 <= start && 0 <= end ==> r == s[Min(start, |s|)..Max(Min(start, |s|), Min(end, |s|))]
    ensures 0 <= start && 0 <= end ==> |r| <= Max(end - start, 0)
  {
    var from, to := RelativeIndex(start, |s|), RelativeIndex(end, |s|);
    var r := if from < to then s[from..to] else s[from..from];
    assert IsRunAt(r, s, from);
    r
  }
}
