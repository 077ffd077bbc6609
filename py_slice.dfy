/** Python's slicing rules, as far as the modelled code relies on them. */
module PySlice {

  /** The position a slice bound `i` denotes in a sequence of length `n`:
      a negative bound counts back from the end, and the result is clamped
      to `0..n`. So `-0` is `0`, which is why `s[-0:]` is all of `s`. */
  function Bound(i: int, n: nat): (b: nat)
    ensures b <= n
    ensures 0 <= i ==> b == if i <= n then i else n
    ensures i < 0 ==> b == if -i <= n then n + i else 0
  {
    if i < 0 then (if n + i < 0 then 0 else n + i)
    else if i > n then n
    else i
  }

  /** The elements `s[start], s[start + 2], ...` that lie before `stop`. */
  function Stride2<T>(s: seq<T>, start: nat, stop: nat): (r: seq<T>)
    requires stop <= |s|
    ensures |r| == if start < stop then (stop - start + 1) / 2 else 0
    ensures forall k :: 0 <= k < |r| ==> start + 2 * k < stop && r[k] == s[start + 2 * k]
    decreases stop - start
  {
    if start >= stop then [] else [s[start]] + Stride2(s, start + 2, stop)
  }

  /** Python's `s[start:stop:2]`, bounds given as Python writes them. */
  function Step2<T>(s: seq<T>, start: int, stop: int): (r: seq<T>)
  {
    Stride2(s, Bound(start, |s|), Bound(stop, |s|))
  }

}
