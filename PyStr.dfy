/**
 * Python's slicing of a string, `s[i:j]`, `s[:k]` and `s[k:]`, written out
 * for Dafny sequences. Python never fails on a slice: a negative bound counts
 * from the end and every bound is clamped into the sequence, so these
 * functions are total.
 */
module PyStr {

  /** Where a Python slice bound `i` lands in a sequence of length `n`. */
  function Bound(i: int, n: nat): (b: nat)
    ensures b <= n
    ensures 0 <= i <= n ==> b == i
    ensures i < 0 <= n + i ==> b == n + i
  {
    if i < 0 then (if i + n < 0 then 0 else i + n)
    else if i > n then n
    else i
  }

  /** `s[i:j]` */
  function Slice<T>(s: seq<T>, i: int, j: int): (r: seq<T>)
    ensures |r| <= |s|
    ensures 0 <= i <= j <= |s| ==> r == s[i..j]
  {
    var lo, hi := Bound(i, |s|), Bound(j, |s|);
    if lo <= hi then s[lo..hi] else []
  }

  /** `s[:k]` */
  function Take<T>(s: seq<T>, k: int): (r: seq<T>)
    ensures 0 <= k <= |s| ==> r == s[..k]
  {
    Slice(s, 0, k)
  }

  /** `s[k:]` */
  function Drop<T>(s: seq<T>, k: int): (r: seq<T>)
    ensures 0 <= k <= |s| ==> r == s[k..]
  {
    Slice(s, k, |s|)
  }
}
