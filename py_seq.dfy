/** Optional values and the handful of Python sequence primitives the source relies on:
    slicing with Python's index normalisation, and `find` over a byte or character range. */
module PySeq {

  datatype Option<+T> = None | Some(value: T)

  /** Python's normalisation of one slice bound against a sequence of length `n`:
      a negative bound counts from the end, and the result is clamped to `0..n`. */
  function SliceBound(n: nat, k: int): (r: nat)
    ensures r <= n
    ensures 0 <= k <= n ==> r == k
    ensures k > n ==> r == n
    ensures k < 0 ==> r == if k + n < 0 then 0 else k + n
  {
    if k < 0 then (if k + n < 0 then 0 else k + n)
    else if k > n then n
    else k
  }

  /** Python's `s[i:j]` for any integers `i` and `j`. */
  function PySlice<T>(s: seq<T>, i: int, j: int): (r: seq<T>)
    ensures |r| <= |s|
    ensures 0 <= i <= j <= |s| ==> r == s[i..j]
    ensures 0 <= j <= i ==> r == []
    ensures 0 <= i < |s| && j == i + 1 ==> r == [s[i]]
    ensures 0 <= i && |s| <= i ==> r == []
  {
    var a := SliceBound(|s|, i);
    var b := SliceBound(|s|, j);
    if a < b then s[a..b] else []
  }

  /** `s.find(x, from, to)` for a single element: the first index in `from..to`
      holding `x`, or None (Python's -1). */
  function Find<T(==)>(s: seq<T>, x: T, from: nat, to: nat): (r: Option<nat>)
    requires to <= |s|
    ensures r.None? <==> forall k | from <= k < to :: s[k] != x
    ensures r.Some? ==> from <= r.value < to && s[r.value] == x
    ensures r.Some? ==> forall k | from <= k < r.value :: s[k] != x
    decreases if from < to then to - from else 0
  {
    if from >= to then None
    else if s[from] == x then Some(from)
    else Find(s, x, from + 1, to)
  }

  /** Number of elements of `s` equal to `x`. */
  function Count<T(==)>(s: seq<T>, x: T): (n: nat)
    ensures n <= |s|
  {
    if s == [] then 0
    else Count(s[..|s| - 1], x) + (if s[|s| - 1] == x then 1 else 0)
  }

  /** The last element and the rest of a sequence built by appending. */
  lemma AppendParts<T>(s: seq<T>, x: T)
    ensures (s + [x])[..|s|] == s && (s + [x])[|s|] == x
  {
  }

  lemma PrefixStep<T>(s: seq<T>, j: nat)
    requires j < |s|
    ensures s[..j + 1] == s[..j] + [s[j]]
  {
  }

  /** Moving one element across a concatenation, and where it then sits. */
  lemma ConsAt<T>(pre: seq<T>, x: T, rest: seq<T>)
    ensures (pre + [x]) + rest == pre + ([x] + rest)
    ensures (pre + ([x] + rest))[|pre|] == x
  {
  }

  lemma SliceJoin<T>(s: seq<T>, p: nat, e: nat)
    requires p <= e <= |s|
    ensures s[p..] == s[p..e] + s[e..]
  {
  }

  lemma CountAppend<T>(s: seq<T>, x: T, b: T)
    ensures Count(s + [x], b) == Count(s, b) + (if x == b then 1 else 0)
  {
    AppendParts(s, x);
  }

  /** A later prefix holds one more copy of `s[i]` than the prefix before `i`. */
  lemma {:induction false} CountGrows<T>(s: seq<T>, i: nat, j: nat)
    requires i < j <= |s|
    ensures Count(s[..j], s[i]) >= Count(s[..i], s[i]) + 1
    decreases j - i
  {
    PrefixStep(s, j - 1);
    CountAppend(s[..j - 1], s[j - 1], s[i]);
    if j > i + 1 {
      CountGrows(s, i, j - 1);
    }
  }
}
