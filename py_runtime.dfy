/** The few pieces of Python list semantics that the import layer relies on:
    optional values, list indexing with negative indices, slice bounds,
    list repetition and `itertools.pairwise`. */
module PyRuntime {

  /** `None` or a value, as Python's `T | None`. */
  datatype Option<+T> = None | Some(value: T)

  function Max(a: int, b: int): int { if a < b then b else a }

  /** `xs[k]` on a Python list: a negative `k` counts from the end, and an
      index outside `-len(xs) .. len(xs) - 1` raises IndexError (here: None). */
  function Index<T>(xs: seq<T>, k: int): (r: Option<T>)
    ensures r.Some? <==> -|xs| <= k < |xs|
    ensures r.Some? ==> 0 <= ToPosition(|xs|, k) < |xs| && r.value == xs[ToPosition(|xs|, k)]
  {
    if 0 <= k < |xs| then Some(xs[k])
    else if -|xs| <= k < 0 then Some(xs[|xs| + k])
    else None
  }

  /** The position that a (possibly negative) Python index `k` denotes in a list of length `n`. */
  function ToPosition(n: nat, k: int): (p: int)
    ensures -(n as int) <= k < n ==> 0 <= p < n
    ensures k >= 0 ==> p == k
    ensures k < 0 ==> p == n + k
  {
    if k < 0 then n + k else k
  }

  /** How Python (and numpy) normalise a slice bound `k` for a sequence of
      length `n`: a negative bound counts from the end, then the bound is
      clamped into `0 .. n`. */
  function SliceBound(k: int, n: nat): (b: nat)
    ensures b <= n
    ensures 0 <= k <= n ==> b == k
    ensures k >= n ==> b == n
    ensures -(n as int) <= k < 0 ==> b as int == n as int + k
    ensures k < -(n as int) ==> b == 0
  {
    if k < 0 then (if k + n < 0 then 0 else k + n)
    else if k > n then n
    else k
  }

  /** `s[start:end]`, where `end == None` means "through the last element". */
  function Slice<T>(s: seq<T>, start: int, end: Option<int>): (r: seq<T>)
    ensures 0 <= start <= |s| && end.None? ==> r == s[start..]
    ensures end.Some? && 0 <= start <= end.value <= |s| ==> r == s[start..end.value]
    ensures |r| <= |s|
  {
    var lo := SliceBound(start, |s|);
    var hi := if end.None? then |s| else SliceBound(end.value, |s|);
    if lo <= hi then s[lo..hi] else []
  }

  /** The length of a slice depends only on the length of what is sliced. */
  lemma SliceSameLength<T, U>(a: seq<T>, b: seq<U>, start: int, end: Option<int>)
    requires |a| == |b|
    ensures |Slice(a, start, end)| == |Slice(b, start, end)|
  {
  }

  /** `[x] * k`: `k` copies of `x`, and the empty list when `k <= 0`. */
  function Repeat<T>(x: T, k: int): (r: seq<T>)
    ensures |r| == Max(0, k)
    ensures forall i :: 0 <= i < |r| ==> r[i] == x
  {
    if k <= 0 then [] else seq(k, _ => x)
  }

  /** `list(itertools.pairwise(xs))`: every pair of neighbours, in order. */
  function Pairwise<T>(xs: seq<T>): (ps: seq<(T, T)>)
    ensures |ps| == Max(0, |xs| - 1)
    ensures forall k :: 0 <= k < |ps| ==> ps[k] == (xs[k], xs[k + 1])
  {
    if |xs| < 2 then [] else seq(|xs| - 1, k requires 0 <= k < |xs| - 1 => (xs[k], xs[k + 1]))
  }
}
