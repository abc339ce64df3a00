/** Order predicates and small sequence helpers shared by the other modules. */
module Sequences {

  /** Every element is smaller than every later one (sorted, no duplicates). */
  predicate StrictlyIncreasing(s: seq<int>) {
    forall i, j :: 0 <= i < j < |s| ==> s[i] < s[j]
  }

  lemma PrependIncreasing(x: int, s: seq<int>)
    requires StrictlyIncreasing(s)
    requires forall y :: y in s ==> x < y
    ensures StrictlyIncreasing([x] + s)
  {
    var r := [x] + s;
    forall i, j | 0 <= i < j < |r| ensures r[i] < r[j] {
      if i == 0 { assert r[j] == s[j - 1] && s[j - 1] in s; }
    }
  }

  /** The first element of a strictly increasing sequence is below all the others. */
  lemma LeastFirst(r: seq<int>)
    requires StrictlyIncreasing(r) && r != []
    ensures forall y :: y in r[1..] ==> r[0] < y
    ensures forall y :: y in r ==> r[0] <= y
  {
    forall y | y in r ensures r[0] <= y {
      var k :| 0 <= k < |r| && r[k] == y;
      if k > 0 { assert r[0] < r[k]; }
    }
    forall y | y in r[1..] ensures r[0] < y {
      var k :| 0 <= k < |r| - 1 && r[1..][k] == y;
      assert r[k + 1] == y;
    }
  }

  /** Every element is at most every later one. */
  predicate NonDecreasing(s: seq<int>) {
    forall i, j :: 0 <= i < j < |s| ==> s[i] <= s[j]
  }

  /** `n` copies of `x`. */
  function Repeat<T>(x: T, n: nat): (r: seq<T>)
    ensures |r| == n
    ensures forall i :: 0 <= i < n ==> r[i] == x
  {
    if n == 0 then [] else Repeat(x, n - 1) + [x]
  }

  /** `a - b` when that is positive, and 0 otherwise: the length of Python's `range(b, a)`. */
  function RangeLength(b: int, a: int): (n: nat)
    ensures b < a ==> n == a - b
    ensures a <= b ==> n == 0
  {
    if b < a then a - b else 0
  }

  /**
   * Python's `s[:n]`: the first `n` elements for `n >= 0` (all of `s` when it is shorter),
   * and for negative `n` everything except the last `-n` elements.
   */
  function PyPrefix<T>(s: seq<T>, n: int): (r: seq<T>)
    ensures |r| <= |s| && r == s[..|r|]
    ensures n >= 0 ==> |r| == if n <= |s| then n else |s|
    ensures n < 0 ==> |r| == if -n <= |s| then |s| + n else 0
  {
    if n >= 0 then (if n <= |s| then s[..n] else s)
    else if -n <= |s| then s[..|s| + n]
    else []
  }

  /** Multiplying by a non-negative factor keeps the order. */
  lemma MulLe(a: int, b: int, c: nat)
    requires a <= b
    ensures a * c <= b * c
  {
  }
}
