/**
 * `progressMonitor`: the checkpoints still ahead, and `report`, which sends at most one
 * notification per call and then forgets every checkpoint the count has reached.
 */
module Monitor {
  import opened Wrappers
  import opened Sequences
  import opened Checkpointing

  /** What `sendReport` is handed: the count, the target and the elapsed seconds. */
  datatype Notification = Notification(count: int, numEvent: int, elapsed: nat)

  /**
   * `report` sends when a checkpoint remains and the first of them is below the count; on
   * sorted checkpoints, that is when any remaining checkpoint is below the count.
   */
  predicate Fires(points: seq<int>, count: int): (b: bool)
    ensures StrictlyIncreasing(points) ==> (b <==> exists i :: 0 <= i < |points| && points[i] < count)
  {
    |points| > 0 && points[0] < count
  }

  /** `points[points > count]`: the checkpoints above the count, in their order. */
  function Above(points: seq<int>, count: int): (r: seq<int>)
    ensures forall x :: x in r <==> x in points && x > count
    ensures |r| <= |points|
  {
    if points == [] then []
    else if points[0] > count then [points[0]] + Above(points[1..], count)
    else Above(points[1..], count)
  }

  /**
   * The checkpoints left after one call of `report`: after it sends, exactly the old ones
   * above the count; otherwise all of them.
   */
  function NextPoints(points: seq<int>, count: int): (r: seq<int>)
    ensures |r| <= |points| && forall x :: x in r ==> x in points
    ensures Fires(points, count) ==> forall x :: x in r <==> x in points && x > count
    ensures !Fires(points, count) ==> r == points
  {
    if Fires(points, count) then Above(points, count) else points
  }

  /** On sorted checkpoints the filter keeps a suffix, and drops exactly those at most the count. */
  lemma {:induction false} AboveOfSorted(points: seq<int>, count: int)
    requires StrictlyIncreasing(points)
    ensures var k := |points| - |Above(points, count)|;
      && Above(points, count) == points[k..]
      && forall i :: 0 <= i < k ==> points[i] <= count
  {
    if points != [] {
      var tail := points[1..];
      assert StrictlyIncreasing(tail);
      AboveOfSorted(tail, count);
      if points[0] > count {
        assert tail[0..] == tail;
        forall i | 0 <= i < |tail| ensures tail[i] > count {
          assert points[0] < points[i + 1];
        }
        assert Above(tail, count) == tail;
        assert [points[0]] + tail == points;
      } else {
        var k := |tail| - |Above(tail, count)|;
        assert points[k + 1..] == tail[k..];
      }
    }
  }

  /** A call that fires removes at least the first checkpoint; one that does not removes none. */
  lemma FiringShrinks(points: seq<int>, count: int)
    ensures Fires(points, count) ==> |NextPoints(points, count)| < |points|
    ensures !Fires(points, count) ==> NextPoints(points, count) == points
  {
    if Fires(points, count) {
      assert Above(points, count) == Above(points[1..], count);
    }
  }

  class ProgressMonitor {
    /** The checkpoints not yet reported, smallest first. */
    var points: seq<int>

    ghost predicate Valid()
      reads this
    {
      StrictlyIncreasing(points)
    }

    /** `progressMonitor(numEvent, numUpdate)`. */
    constructor (numEvent: int, numUpdate: nat := DefaultUpdates)
      ensures Valid()
      ensures points == Checkpoints(numEvent, numUpdate)
    {
      points := Checkpoints(numEvent, numUpdate);
    }

    /**
     * `report(count, numEvent, elapsed, ETA)`; the notification sent, if any, is returned.
     * Firing leaves exactly the checkpoints above the count, and either way the checkpoints
     * left are a suffix of those before.
     */
    method Report(count: int, numEvent: int, elapsed: nat) returns (sent: Option<Notification>)
      requires Valid()
      modifies this
      ensures Valid()
      ensures sent.Some? <==> old(points) != [] && old(points)[0] < count
      ensures sent.Some? ==> sent.value == Notification(count, numEvent, elapsed)
      ensures sent.Some? ==> points == Above(old(points), count)
      ensures sent.None? ==> points == old(points)
      ensures points == NextPoints(old(points), count)
      ensures exists k :: 0 <= k <= |old(points)| && points == old(points)[k..]
      ensures sent.Some? ==> |points| < |old(points)|
    {
      sent := None;
      if |points| > 0 {
        if points[0] < count {
          sent := Some(Notification(count, numEvent, elapsed));
          AboveOfSorted(points, count);
          FiringShrinks(points, count);
          assert StrictlyIncreasing(points[|points| - |Above(points, count)|..]);
          points := Above(points, count);
        }
      }
      if sent.None? {
        assert points == points[0..];
      }
    }
  }

  /** One call keeps the checkpoints sorted, keeps only old ones, and after firing only those above the count. */
  lemma NextPointsFacts(points: seq<int>, count: int)
    requires StrictlyIncreasing(points)
    ensures StrictlyIncreasing(NextPoints(points, count))
    ensures forall x :: x in NextPoints(points, count) ==> x in points
    ensures Fires(points, count) ==> forall x :: x in NextPoints(points, count) ==> x > count
    ensures Fires(points, count) ==> |NextPoints(points, count)| < |points|
  {
    FiringShrinks(points, count);
    if Fires(points, count) {
      AboveOfSorted(points, count);
      assert StrictlyIncreasing(points[|points| - |Above(points, count)|..]);
    }
  }

  /** The counts at which notifications are sent when `report` is called with `counts` in turn. */
  function Replay(points: seq<int>, counts: seq<int>): (r: seq<int>)
    ensures |r| <= |counts|
    ensures forall f :: f in r ==> f in counts
    decreases |counts|
  {
    if counts == [] then []
    else
      var rest := Replay(NextPoints(points, counts[0]), counts[1..]);
      assert forall f :: f in rest ==> f in counts by {
        forall f | f in rest ensures f in counts {
          var k :| 0 <= k < |counts| - 1 && counts[1..][k] == f;
          assert counts[k + 1] == f;
        }
      }
      (if Fires(points, counts[0]) then [counts[0]] else []) + rest
  }

  /**
   * However the counts move, no more notifications are sent than there were checkpoints,
   * each one is sent at a count above the first checkpoint then remaining, and the counts
   * at which they are sent strictly increase.
   */
  lemma {:induction false} ReplayFacts(points: seq<int>, counts: seq<int>)
    requires StrictlyIncreasing(points)
    ensures |Replay(points, counts)| <= |points|
    ensures StrictlyIncreasing(Replay(points, counts))
    ensures forall f :: f in Replay(points, counts) ==> points != [] && points[0] < f
    decreases |counts|
  {
    if counts != [] {
      var c := counts[0];
      var next := NextPoints(points, c);
      NextPointsFacts(points, c);
      ReplayFacts(next, counts[1..]);
      var rest := Replay(next, counts[1..]);
      var head := if Fires(points, c) then [c] else [];
      assert Replay(points, counts) == head + rest;
      if rest != [] {
        assert next != [] && next[0] in next;
        LeastFirst(points);
      }
      assert forall f :: f in rest ==> points[0] < f;
      if Fires(points, c) {
        assert forall f :: f in rest ==> c < f;
        PrependIncreasing(c, rest);
      }
    }
  }

  /** Example: counts 5, 25, 65, 100 against checkpoints 20..100 notify three times. */
  lemma ReplayOfHundred()
    ensures Replay([20, 40, 60, 80, 100], [5, 25, 65, 100]) == [25, 65, 100]
  {
    var p := [20, 40, 60, 80, 100];
    assert NextPoints(p, 5) == p;
    assert Above([80, 100], 100) == [];
    assert Above([40, 60, 80, 100], 65) == [80, 100];
    assert Above(p, 25) == [40, 60, 80, 100];
    assert Replay([], []) == [];
    assert Replay([80, 100], [100]) == [100];
    assert Replay([40, 60, 80, 100], [65, 100]) == [65, 100];
    assert Replay(p, [25, 65, 100]) == [25, 65, 100];
  }
}
