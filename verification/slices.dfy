/** Python's slice semantics with a step of one: negative bounds count from
    the end, and bounds past either end are clamped. Used wherever the
    source reads, deletes or splices a slice (`a[lo:hi]`, `del a[lo:hi]`,
    `a[i:i] = b`). */
module Slices {

  /** The index one bound `i` of `a[lo:hi]` resolves to in a sequence of length `n`. */
  function Bound(i: int, n: nat): (b: nat)
    ensures b <= n
    ensures 0 <= i <= n ==> b == i
    ensures i < 0 ==> b == if i + n < 0 then 0 else i + n
    ensures i > n ==> b == n
  {
    if i < 0 then (if i + n < 0 then 0 else i + n)
    else if i > n then n
    else i
  }

  /** First index taken by `a[lo:hi]`. */
  function Start(lo: int, n: nat): nat {
    Bound(lo, n)
  }

  /** Number of elements taken by `a[lo:hi]` from a sequence of length `n`. */
  function Len(lo: int, hi: int, n: nat): (k: nat)
    ensures Start(lo, n) + k <= n
  {
    var a := Bound(lo, n);
    var b := Bound(hi, n);
    if a < b then b - a else 0
  }

  /** `s[lo:hi]`. */
  function Slice<T>(s: seq<T>, lo: int, hi: int): (r: seq<T>)
    ensures |r| == Len(lo, hi, |s|)
    ensures forall k :: 0 <= k < |r| ==> r[k] == s[Start(lo, |s|) + k]
  {
    var a := Bound(lo, |s|);
    s[a..a + Len(lo, hi, |s|)]
  }

  /** `del s[lo:hi]`: the elements before and after the sliced range, in order. */
  function Delete<T>(s: seq<T>, lo: int, hi: int): (r: seq<T>)
    ensures |r| == |s| - Len(lo, hi, |s|)
    ensures r == s[..Start(lo, |s|)] + s[Start(lo, |s|) + Len(lo, hi, |s|)..]
  {
    var a := Bound(lo, |s|);
    s[..a] + s[a + Len(lo, hi, |s|)..]
  }

  /** `s[at:at] = ins`: `ins` spliced in before the clamped position `at`. */
  function Splice<T>(s: seq<T>, at: int, ins: seq<T>): (r: seq<T>)
    ensures |r| == |s| + |ins|
    ensures r[..Bound(at, |s|)] == s[..Bound(at, |s|)]
    ensures r[Bound(at, |s|)..Bound(at, |s|) + |ins|] == ins
    ensures r[Bound(at, |s|) + |ins|..] == s[Bound(at, |s|)..]
  {
    var a := Bound(at, |s|);
    s[..a] + ins + s[a..]
  }
}
