/**
 * The checkpoints of `progressMonitor.__init__`:
 * `unique(linspace(0, numEvent, numUpdate + 1).astype('int32'))[1:]`.
 * The evenly spaced points are taken with exact rational arithmetic and truncated toward
 * zero, which is what the float computation followed by the integer cast does on exact values.
 */
module Checkpointing {
  import opened Sequences

  /** Checkpoints the program asks for: `progressMonitor(numEvent)` uses the default 5. */
  const DefaultUpdates: nat := 5

  lemma DivBracket(a: int, b: int)
    requires a >= 0 && b > 0
    ensures (a / b) * b <= a < (a / b) * b + b
  {
    var q, r := a / b, a % b;
    assert a == q * b + r;
  }

  /** Integer division truncating toward zero, as a cast of a float quotient to int32 does. */
  function TruncDiv(a: int, b: int): int
    requires b > 0
  {
    if a >= 0 then a / b else -((-a) / b)
  }

  /** For a non-negative dividend the truncated quotient is bracketed by multiples of the divisor. */
  lemma TruncDivBracket(a: int, b: int)
    requires a >= 0 && b > 0
    ensures TruncDiv(a, b) >= 0 && TruncDiv(a, b) * b <= a < TruncDiv(a, b) * b + b
  {
    DivBracket(a, b);
  }

  /**
   * `linspace(0, numEvent, numUpdate + 1)` cast to integers: point `i` is
   * `i * numEvent / numUpdate` truncated; with a single point numpy returns just the start.
   */
  function Linspace(numEvent: int, numUpdate: nat): (s: seq<int>)
    ensures |s| == numUpdate + 1
    ensures s[0] == 0
    ensures numUpdate > 0 ==> forall i :: 0 <= i <= numUpdate ==> s[i] == TruncDiv(i * numEvent, numUpdate)
    ensures numUpdate > 0 && numEvent >= 0 ==> s[numUpdate] == numEvent
    ensures numEvent >= 0 ==> forall i :: 0 <= i <= numUpdate ==> 0 <= s[i] <= numEvent
  {
    if numUpdate == 0 then [0]
    else if numEvent < 0 then seq(numUpdate + 1, i => TruncDiv(i * numEvent, numUpdate))
    else
      LastPoint(numEvent, numUpdate);
      AllPointsBounded(numEvent, numUpdate);
      seq(numUpdate + 1, i => TruncDiv(i * numEvent, numUpdate))
  }

  /** Inserts `x` into a sorted sequence without duplicates, keeping it so. */
  function Insert(x: int, r: seq<int>): (o: seq<int>)
    requires StrictlyIncreasing(r)
    ensures StrictlyIncreasing(o)
    ensures forall y :: y in o <==> y in r || y == x
    ensures |o| <= |r| + 1
  {
    if r == [] then [x]
    else if x < r[0] then
      LeastFirst(r);
      PrependIncreasing(x, r);
      [x] + r
    else if x == r[0] then r
    else
      var rest := Insert(x, r[1..]);
      LeastFirst(r);
      PrependIncreasing(r[0], rest);
      [r[0]] + rest
  }

  /** numpy's `unique`: the distinct elements of `s` in ascending order. */
  function SortedUnique(s: seq<int>): (r: seq<int>)
    ensures StrictlyIncreasing(r)
    ensures forall y :: y in r <==> y in s
    ensures |r| <= |s|
  {
    if s == [] then [] else Insert(s[|s| - 1], SortedUnique(s[..|s| - 1]))
  }

  /**
   * The sorted distinct points with the smallest one dropped: the start, 0, when
   * `numEvent >= 0` (see SmallestPointIsZero).
   */
  function Checkpoints(numEvent: int, numUpdate: nat): (cp: seq<int>)
    ensures StrictlyIncreasing(cp)
    ensures |cp| <= numUpdate
  {
    var u := SortedUnique(Linspace(numEvent, numUpdate));
    assert Linspace(numEvent, numUpdate)[0] in u;
    u[1..]
  }

  /** A quotient is pinned down by the two products around the dividend. */
  lemma QuotientUnique(a: int, b: int, q: int, k: int)
    requires b > 0
    requires q * b <= a < (q + 1) * b
    requires k * b <= a < (k + 1) * b
    ensures q == k
  {
    if q < k {
      MulLe(q + 1, k, b);
      assert false;
    } else if k < q {
      MulLe(k + 1, q, b);
      assert false;
    }
  }

  lemma MulLeCancel(q: int, n: int, u: int)
    requires u > 0 && q * u <= n * u
    ensures q <= n
  {
    if q > n {
      MulLe(n + 1, q, u);
      assert false;
    }
  }

  /** Every point `i * n / u` with `0 <= i <= u` lies in `[0, n]`. */
  lemma PointBounds(i: int, n: int, u: int)
    requires 0 <= i <= u && u > 0 && n >= 0
    ensures 0 <= TruncDiv(i * n, u) <= n
  {
    MulLe(i, u, n);
    MulLe(0, i, n);
    TruncDivBracket(i * n, u);
    var q := TruncDiv(i * n, u);
    assert q * u <= n * u;
    MulLeCancel(q, n, u);
  }

  /** Every point `i * n / u` with `0 <= i <= u`, at once. */
  lemma AllPointsBounded(n: int, u: int)
    requires u > 0 && n >= 0
    ensures forall i :: 0 <= i <= u ==> 0 <= TruncDiv(i * n, u) <= n
  {
    forall i | 0 <= i <= u ensures 0 <= TruncDiv(i * n, u) <= n {
      PointBounds(i, n, u);
    }
  }

  /** The last point is the target itself. */
  lemma LastPoint(n: int, u: int)
    requires u > 0 && n >= 0
    ensures TruncDiv(u * n, u) == n
  {
    assert u * n == n * u;
    assert (n + 1) * u == n * u + u;
    TruncDivBracket(u * n, u);
    QuotientUnique(u * n, u, TruncDiv(u * n, u), n);
  }

  /** The first point of a sorted sequence is its minimum, the last its maximum. */
  lemma EndsOfSorted(u: seq<int>, lo: int, hi: int)
    requires StrictlyIncreasing(u)
    requires lo in u && hi in u
    requires forall y :: y in u ==> lo <= y <= hi
    ensures u[0] == lo && u[|u| - 1] == hi
  {
    var i :| 0 <= i < |u| && u[i] == lo;
    var j :| 0 <= j < |u| && u[j] == hi;
    assert u[0] in u && u[|u| - 1] in u;
  }

  /**
   * For a positive target and at least one update the checkpoints lie in `[1, numEvent]`,
   * there is at least one, and the last is `numEvent` itself.
   */
  lemma CheckpointsInRange(numEvent: int, numUpdate: nat)
    requires numEvent >= 1 && numUpdate >= 1
    ensures var cp := Checkpoints(numEvent, numUpdate);
      && 1 <= |cp| <= numUpdate
      && (forall x :: x in cp ==> 1 <= x <= numEvent)
      && cp[|cp| - 1] == numEvent
  {
    var s := Linspace(numEvent, numUpdate);
    var u := SortedUnique(s);
    assert s[numUpdate] == numEvent by {
      LastPoint(numEvent, numUpdate);
    }
    forall y | y in u ensures 0 <= y <= numEvent {
      var i :| 0 <= i < |s| && s[i] == y;
      PointBounds(i, numEvent, numUpdate);
    }
    assert s[0] in u && s[numUpdate] in u;
    EndsOfSorted(u, 0, numEvent);
    var cp := Checkpoints(numEvent, numUpdate);
    assert cp == u[1..];
    forall x | x in cp ensures 1 <= x {
      var k :| 0 <= k < |cp| && cp[k] == x;
      assert u[0] < u[k + 1];
    }
  }

  /** For a non-negative target the smallest distinct point is the start, 0, and it is the one dropped. */
  lemma SmallestPointIsZero(numEvent: int, numUpdate: nat)
    requires numEvent >= 0 && numUpdate >= 1
    ensures var u := SortedUnique(Linspace(numEvent, numUpdate));
      |u| >= 1 && u[0] == 0 && Checkpoints(numEvent, numUpdate) == u[1..]
  {
    var s := Linspace(numEvent, numUpdate);
    var u := SortedUnique(s);
    forall y | y in u ensures 0 <= y {
      var i :| 0 <= i < |s| && s[i] == y;
      PointBounds(i, numEvent, numUpdate);
    }
    assert s[0] in u;
    var j :| 0 <= j < |u| && u[j] == 0;
    assert u[0] in u;
  }

  /** `x` is one of the spaced points after the start. */
  ghost predicate IsLaterPoint(numEvent: int, numUpdate: nat, x: int)
    requires numUpdate >= 1
  {
    exists i :: 1 <= i <= numUpdate && x == TruncDiv(i * numEvent, numUpdate)
  }

  lemma CheckpointsAreLaterPoints(numEvent: int, numUpdate: nat, x: int)
    requires numEvent >= 0 && numUpdate >= 1
    ensures x in Checkpoints(numEvent, numUpdate) ==> x != 0 && IsLaterPoint(numEvent, numUpdate, x)
  {
    var s := Linspace(numEvent, numUpdate);
    var u := SortedUnique(s);
    var cp := Checkpoints(numEvent, numUpdate);
    if x in cp {
      SmallestPointIsZero(numEvent, numUpdate);
      var k :| 0 <= k < |cp| && cp[k] == x;
      assert u[0] < u[k + 1];
      assert x in u;
      var i :| 0 <= i < |s| && s[i] == x;
      assert 1 <= i && x == TruncDiv(i * numEvent, numUpdate);
    }
  }

  lemma LaterPointsAreCheckpoints(numEvent: int, numUpdate: nat, x: int)
    requires numEvent >= 0 && numUpdate >= 1
    requires x != 0 && IsLaterPoint(numEvent, numUpdate, x)
    ensures x in Checkpoints(numEvent, numUpdate)
  {
    var s := Linspace(numEvent, numUpdate);
    var u := SortedUnique(s);
    var cp := Checkpoints(numEvent, numUpdate);
    SmallestPointIsZero(numEvent, numUpdate);
    var i :| 1 <= i <= numUpdate && x == TruncDiv(i * numEvent, numUpdate);
    assert s[i] == x;
    assert x in u;
    var k :| 0 <= k < |u| && u[k] == x;
    assert cp[k - 1] == x;
  }

  /**
   * For a non-negative target the checkpoints are exactly the non-zero truncated points
   * `i * numEvent / numUpdate`, `1 <= i <= numUpdate`.
   */
  lemma CheckpointsMembers(numEvent: int, numUpdate: nat, x: int)
    requires numEvent >= 0 && numUpdate >= 1
    ensures x in Checkpoints(numEvent, numUpdate) <==> x != 0 && IsLaterPoint(numEvent, numUpdate, x)
  {
    CheckpointsAreLaterPoints(numEvent, numUpdate, x);
    if x != 0 && IsLaterPoint(numEvent, numUpdate, x) {
      LaterPointsAreCheckpoints(numEvent, numUpdate, x);
    }
  }

  /** Inserting a new maximum appends it. */
  lemma {:induction false} InsertAbove(x: int, r: seq<int>)
    requires StrictlyIncreasing(r)
    requires forall y :: y in r ==> y < x
    ensures Insert(x, r) == r + [x]
  {
    if r != [] {
      assert r[0] in r;
      assert StrictlyIncreasing(r[1..]);
      assert forall y :: y in r[1..] ==> y in r;
      InsertAbove(x, r[1..]);
      assert [r[0]] + (r[1..] + [x]) == r + [x];
    }
  }

  /** `unique` leaves a sequence that is already sorted without duplicates as it is. */
  lemma {:induction false} SortedUniqueOfIncreasing(s: seq<int>)
    requires StrictlyIncreasing(s)
    ensures SortedUnique(s) == s
  {
    if s != [] {
      var init := s[..|s| - 1];
      assert StrictlyIncreasing(init);
      SortedUniqueOfIncreasing(init);
      forall y | y in init ensures y < s[|s| - 1] {
        var k :| 0 <= k < |init| && init[k] == y;
      }
      InsertAbove(s[|s| - 1], init);
      assert init + [s[|s| - 1]] == s;
    }
  }

  /** Example: 100 events in 5 updates are reported at every 20 events. */
  lemma CheckpointsOfHundred()
    ensures Checkpoints(100, DefaultUpdates) == [20, 40, 60, 80, 100]
  {
    var s := Linspace(100, DefaultUpdates);
    assert s[1] == 20 && s[2] == 40 && s[3] == 60 && s[4] == 80 && s[5] == 100;
    assert s == [0, 20, 40, 60, 80, 100];
    SortedUniqueOfIncreasing(s);
  }
}
