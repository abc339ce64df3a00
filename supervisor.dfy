/**
 * The bookkeeping of `runWaveDump`'s polling loop. Each tick estimates the count,
 * back-fills one time flag per newly finished event, stops once the count exceeds the
 * target, and otherwise reports progress when the count has changed. The ticks are a
 * finite sequence of observations; when it runs out before the stop condition, the
 * program would still be polling, and the loop's variables are returned as they stand.
 */
module Supervisor {
  import opened Sequences
  import opened Checkpointing
  import opened Monitor

  /** One tick: the count read from the output file and the whole seconds since writing began. */
  datatype Observation = Observation(count: int, elapsed: nat)

  /** The loop's variables between ticks: `count_old`, `timeFlags`, the monitor's checkpoints and the notifications sent. */
  datatype PollState = PollState(countOld: int, timeFlags: seq<nat>, points: seq<int>, sent: seq<Notification>)

  datatype Outcome =
    | Finished(timeFlags: seq<nat>, sent: seq<Notification>)
    | StillPolling(state: PollState)

  /**
   * The state when the loop is entered: `count_old = 0`, no flags, no notifications, and
   * the checkpoints of `progressMonitor(numEvent)`, which for a positive target lie in
   * `[1, numEvent]` and end at the target.
   */
  function Start(numEvent: int): (r: PollState)
    ensures r.countOld == 0 && r.timeFlags == [] && r.sent == []
    ensures r.points == Checkpoints(numEvent, DefaultUpdates)
    ensures StrictlyIncreasing(r.points) && |r.points| <= DefaultUpdates
    ensures numEvent >= 1 ==> r.points != [] && r.points[|r.points| - 1] == numEvent
    ensures numEvent >= 1 ==> forall p :: p in r.points ==> 1 <= p <= numEvent
  {
    if numEvent >= 1 then
      CheckpointsInRange(numEvent, DefaultUpdates);
      PollState(0, [], Checkpoints(numEvent, DefaultUpdates), [])
    else
      PollState(0, [], Checkpoints(numEvent, DefaultUpdates), [])
  }

  /** `for _ in range(count_old, count): timeFlags.append(elapsed)`. */
  function Backfill(flags: seq<nat>, countOld: int, count: int, elapsed: nat): (r: seq<nat>)
    ensures |r| == |flags| + RangeLength(countOld, count)
    ensures r[..|flags|] == flags
    ensures forall i :: |flags| <= i < |r| ==> r[i] == elapsed
  {
    flags + Repeat(elapsed, RangeLength(countOld, count))
  }

  /**
   * A tick on which the loop does not stop. `count_old` ends equal to the count; a
   * notification is added only when the count changed, at most one, and for this tick.
   */
  function Continue(numEvent: int, s: PollState, o: Observation): (r: PollState)
    ensures r.countOld == o.count
    ensures r.timeFlags == Backfill(s.timeFlags, s.countOld, o.count, o.elapsed)
    ensures |s.sent| <= |r.sent| <= |s.sent| + 1 && r.sent[..|s.sent|] == s.sent
    ensures |r.sent| == |s.sent| + 1 <==> s.countOld != o.count && Fires(s.points, o.count)
    ensures |r.sent| == |s.sent| + 1 ==> r.sent[|s.sent|] == Notification(o.count, numEvent, o.elapsed)
    ensures r.points == if s.countOld != o.count then NextPoints(s.points, o.count) else s.points
  {
    var flags := Backfill(s.timeFlags, s.countOld, o.count, o.elapsed);
    if s.countOld != o.count then
      var note := if Fires(s.points, o.count) then [Notification(o.count, numEvent, o.elapsed)] else [];
      PollState(o.count, flags, NextPoints(s.points, o.count), s.sent + note)
    else
      PollState(s.countOld, flags, s.points, s.sent)
  }

  /**
   * The loop run over the ticks `obs` from state `s`. Notifications are only ever
   * appended, at most one per tick.
   */
  function Poll(numEvent: int, s: PollState, obs: seq<Observation>): (r: Outcome)
    ensures var sent := if r.Finished? then r.sent else r.state.sent;
      |s.sent| <= |sent| <= |s.sent| + |obs| && sent[..|s.sent|] == s.sent
    decreases |obs|
  {
    if obs == [] then StillPolling(s)
    else if obs[0].count > numEvent then
      Finished(PyPrefix(Backfill(s.timeFlags, s.countOld, obs[0].count, obs[0].elapsed), numEvent), s.sent)
    else
      var c := Continue(numEvent, s, obs[0]);
      var r := Poll(numEvent, c, obs[1..]);
      ghost var sent := if r.Finished? then r.sent else r.state.sent;
      assert sent[..|s.sent|] == sent[..|c.sent|][..|s.sent|];
      r
  }

  /**
   * The state after ticks none of which stopped the loop: `count_old` is the last tick's
   * count, and notifications were only appended, at most one per tick.
   */
  function Advance(numEvent: int, s: PollState, obs: seq<Observation>): (r: PollState)
    ensures obs != [] ==> r.countOld == obs[|obs| - 1].count
    ensures |s.sent| <= |r.sent| <= |s.sent| + |obs| && r.sent[..|s.sent|] == s.sent
    decreases |obs|
  {
    if obs == [] then s
    else
      var c := Continue(numEvent, s, obs[0]);
      var r := Advance(numEvent, c, obs[1..]);
      assert obs[1..] != [] ==> obs[1..][|obs[1..]| - 1] == obs[|obs| - 1];
      assert r.sent[..|s.sent|] == r.sent[..|c.sent|][..|s.sent|];
      r
  }

  /** The inner `for` loop: one copy of `elapsed` per event in `range(countOld, count)`. */
  method AppendFlags(flags: seq<nat>, countOld: int, count: int, elapsed: nat) returns (r: seq<nat>)
    ensures r == Backfill(flags, countOld, count, elapsed)
  {
    r := flags;
    var j := countOld;
    while j < count
      invariant countOld <= j && (countOld <= count ==> j <= count) && (count <= countOld ==> j == countOld)
      invariant r == flags + Repeat(elapsed, j - countOld)
    {
      r := r + [elapsed];
      j := j + 1;
    }
    assert j - countOld == RangeLength(countOld, count);
  }

  /**
   * The loop of `runWaveDump`, from `count_old = 0` with a fresh `progressMonitor`, over
   * the supplied ticks.
   */
  method RunWaveDump(numEvent: int, obs: seq<Observation>) returns (outcome: Outcome)
    ensures outcome == Poll(numEvent, Start(numEvent), obs)
  {
    var prog := new ProgressMonitor(numEvent);
    var timeFlags: seq<nat> := [];
    var sent: seq<Notification> := [];
    var countOld := 0;
    var i := 0;
    while i < |obs|
      invariant 0 <= i <= |obs|
      invariant prog.Valid()
      invariant Poll(numEvent, Start(numEvent), obs)
             == Poll(numEvent, PollState(countOld, timeFlags, prog.points, sent), obs[i..])
    {
      var count, elapsed := obs[i].count, obs[i].elapsed;
      ghost var s := PollState(countOld, timeFlags, prog.points, sent);
      assert obs[i..][0] == obs[i] && obs[i..][1..] == obs[i + 1..];
      timeFlags := AppendFlags(timeFlags, countOld, count, elapsed);
      if count > numEvent {
        outcome := Finished(PyPrefix(timeFlags, numEvent), sent);
        return;
      }
      if countOld != count {
        countOld := count;
        var note := prog.Report(count, numEvent, elapsed);
        if note.Some? {
          sent := sent + [note.value];
        }
      }
      assert PollState(countOld, timeFlags, prog.points, sent) == Continue(numEvent, s, obs[i]);
      i := i + 1;
    }
    outcome := StillPolling(PollState(countOld, timeFlags, prog.points, sent));
  }

  /** The loop stops exactly when some tick's count exceeds the target. */
  lemma {:induction false} PollStopsIff(numEvent: int, s: PollState, obs: seq<Observation>)
    ensures Poll(numEvent, s, obs).Finished? <==> exists i :: 0 <= i < |obs| && obs[i].count > numEvent
    decreases |obs|
  {
    if obs != [] && obs[0].count <= numEvent {
      PollStopsIff(numEvent, Continue(numEvent, s, obs[0]), obs[1..]);
      if exists i :: 0 <= i < |obs| && obs[i].count > numEvent {
        var i :| 0 <= i < |obs| && obs[i].count > numEvent;
        assert obs[1..][i - 1] == obs[i];
      }
    }
  }

  /**
   * The loop stops at the first tick `k` whose count exceeds the target. It returns the
   * first `numEvent` flags after that tick's back-fill, and the notifications sent before
   * it: none is sent on the stopping tick.
   */
  lemma {:induction false} PollStopsAtFirst(numEvent: int, s: PollState, obs: seq<Observation>, k: nat)
    requires k < |obs| && obs[k].count > numEvent
    requires forall i :: 0 <= i < k ==> obs[i].count <= numEvent
    ensures var last := Advance(numEvent, s, obs[..k]);
      Poll(numEvent, s, obs)
      == Finished(PyPrefix(Backfill(last.timeFlags, last.countOld, obs[k].count, obs[k].elapsed), numEvent), last.sent)
    decreases k
  {
    if k > 0 {
      forall i | 0 <= i < k - 1 ensures obs[1..][i].count <= numEvent {
        assert obs[1..][i] == obs[i + 1];
      }
      PollStopsAtFirst(numEvent, Continue(numEvent, s, obs[0]), obs[1..], k - 1);
      assert obs[..k][1..] == obs[1..][..k - 1];
    }
  }

  /** The loop keeps at least `count_old` flags. */
  ghost predicate FlagsCoverCount(s: PollState) {
    |s.timeFlags| >= s.countOld
  }

  /**
   * For a non-negative target, a run that stops returns exactly `numEvent` flags, however
   * the counts move between ticks.
   */
  lemma {:induction false} FinishedHasTargetLength(numEvent: int, s: PollState, obs: seq<Observation>)
    requires numEvent >= 0 && FlagsCoverCount(s)
    ensures Poll(numEvent, s, obs).Finished? ==> |Poll(numEvent, s, obs).timeFlags| == numEvent
    decreases |obs|
  {
    if obs != [] && obs[0].count <= numEvent {
      FinishedHasTargetLength(numEvent, Continue(numEvent, s, obs[0]), obs[1..]);
    }
  }

  /** From the start: a run of `runWaveDump` that stops returns `numEvent` flags. */
  lemma RunHasTargetLength(numEvent: int, obs: seq<Observation>)
    requires numEvent >= 0
    ensures Poll(numEvent, Start(numEvent), obs).Finished? ==> |Poll(numEvent, Start(numEvent), obs).timeFlags| == numEvent
  {
    FinishedHasTargetLength(numEvent, Start(numEvent), obs);
  }

  predicate ElapsedNonDecreasing(obs: seq<Observation>) {
    forall i, j :: 0 <= i < j < |obs| ==> obs[i].elapsed <= obs[j].elapsed
  }

  /** The flags so far are sorted and none is later than the next tick. */
  ghost predicate FlagsOrdered(s: PollState, obs: seq<Observation>) {
    && NonDecreasing(s.timeFlags)
    && (s.timeFlags != [] && obs != [] ==> s.timeFlags[|s.timeFlags| - 1] <= obs[0].elapsed)
  }

  lemma BackfillOrdered(flags: seq<nat>, countOld: int, count: int, elapsed: nat)
    requires NonDecreasing(flags)
    requires flags != [] ==> flags[|flags| - 1] <= elapsed
    ensures var r := Backfill(flags, countOld, count, elapsed);
      NonDecreasing(r) && (r != [] ==> r[|r| - 1] <= elapsed)
  {
    var r := Backfill(flags, countOld, count, elapsed);
    forall i, j | 0 <= i < j < |r| ensures r[i] <= r[j] {
      if j < |flags| {
        assert r[i] == flags[i] && r[j] == flags[j];
      } else if i < |flags| {
        assert r[i] == flags[i];
        assert flags[i] <= flags[|flags| - 1];
      }
    }
  }

  /** If the elapsed times never go backwards, the returned flags are sorted. */
  lemma {:induction false} FinishedFlagsSorted(numEvent: int, s: PollState, obs: seq<Observation>)
    requires ElapsedNonDecreasing(obs) && FlagsOrdered(s, obs)
    ensures Poll(numEvent, s, obs).Finished? ==> NonDecreasing(Poll(numEvent, s, obs).timeFlags)
    decreases |obs|
  {
    if obs != [] {
      var o := obs[0];
      BackfillOrdered(s.timeFlags, s.countOld, o.count, o.elapsed);
      var r := Backfill(s.timeFlags, s.countOld, o.count, o.elapsed);
      if o.count > numEvent {
        var p := PyPrefix(r, numEvent);
        assert p == r[..|p|];
      } else {
        var rest := obs[1..];
        assert ElapsedNonDecreasing(rest) by {
          forall i, j | 0 <= i < j < |rest| ensures rest[i].elapsed <= rest[j].elapsed {
            assert rest[i] == obs[i + 1] && rest[j] == obs[j + 1];
          }
        }
        if rest != [] {
          assert rest[0] == obs[1];
        }
        FinishedFlagsSorted(numEvent, Continue(numEvent, s, o), rest);
      }
    }
  }

  /** From the start: with non-decreasing elapsed times a run returns sorted flags. */
  lemma RunFlagsSorted(numEvent: int, obs: seq<Observation>)
    requires ElapsedNonDecreasing(obs)
    ensures Poll(numEvent, Start(numEvent), obs).Finished? ==> NonDecreasing(Poll(numEvent, Start(numEvent), obs).timeFlags)
  {
    FinishedFlagsSorted(numEvent, Start(numEvent), obs);
  }

  function SentCounts(sent: seq<Notification>): (r: seq<int>)
    ensures |r| == |sent| && forall k :: 0 <= k < |sent| ==> r[k] == sent[k].count
  {
    seq(|sent|, k requires 0 <= k < |sent| => sent[k].count)
  }

  /** What the loop keeps true of its notifications, given the number of checkpoints it began with. */
  ghost predicate NotesInvariant(numEvent: int, s: PollState, budget: nat) {
    && StrictlyIncreasing(s.points)
    && |s.sent| + |s.points| <= budget
    && StrictlyIncreasing(SentCounts(s.sent))
    && (forall k :: 0 <= k < |s.sent| ==> s.sent[k].count <= numEvent && s.sent[k].numEvent == numEvent)
    && (s.sent != [] ==> forall p :: p in s.points ==> s.sent[|s.sent| - 1].count < p)
  }

  lemma ContinueKeepsNotes(numEvent: int, s: PollState, o: Observation, budget: nat)
    requires NotesInvariant(numEvent, s, budget) && o.count <= numEvent
    ensures NotesInvariant(numEvent, Continue(numEvent, s, o), budget)
  {
    var r := Continue(numEvent, s, o);
    if s.countOld != o.count {
      NextPointsFacts(s.points, o.count);
      if Fires(s.points, o.count) {
        assert s.points[0] in s.points;
        var counts := SentCounts(s.sent);
        assert SentCounts(r.sent) == counts + [o.count];
        forall i, j | 0 <= i < j < |counts| + 1 ensures (counts + [o.count])[i] < (counts + [o.count])[j] {
          if j == |counts| && i < |counts| - 1 {
            assert counts[i] < counts[|counts| - 1];
          }
        }
      }
    }
  }

  lemma {:induction false} PollKeepsNotes(numEvent: int, s: PollState, obs: seq<Observation>, budget: nat)
    requires NotesInvariant(numEvent, s, budget)
    ensures var r := Poll(numEvent, s, obs);
      NotesInvariant(numEvent, if r.Finished? then PollState(0, [], [], r.sent) else r.state, budget)
    decreases |obs|
  {
    if obs != [] {
      if obs[0].count > numEvent {
        assert NotesInvariant(numEvent, PollState(0, [], [], s.sent), budget);
      } else {
        ContinueKeepsNotes(numEvent, s, obs[0], budget);
        PollKeepsNotes(numEvent, Continue(numEvent, s, obs[0]), obs[1..], budget);
      }
    }
  }

  /**
   * A run sends at most one notification per checkpoint, so at most five; they are sent
   * at strictly increasing counts, none above the target.
   */
  lemma RunNotifications(numEvent: int, obs: seq<Observation>)
    ensures var r := Poll(numEvent, Start(numEvent), obs);
      var sent := if r.Finished? then r.sent else r.state.sent;
      && |sent| <= |Checkpoints(numEvent, DefaultUpdates)| <= DefaultUpdates
      && StrictlyIncreasing(SentCounts(sent))
      && forall k :: 0 <= k < |sent| ==> sent[k].count <= numEvent && sent[k].numEvent == numEvent
  {
    var s := Start(numEvent);
    PollKeepsNotes(numEvent, s, obs, |s.points|);
  }

  /**
   * What the loop keeps true of the last checkpoint: while checkpoints remain, the last is
   * the target; and the notifications sent plus the checkpoints left, plus one once none
   * are left, stay within the number of checkpoints it began with.
   */
  ghost predicate LastCheckpointInvariant(numEvent: int, s: PollState, budget: nat) {
    && StrictlyIncreasing(s.points)
    && (s.points != [] ==> s.points[|s.points| - 1] == numEvent)
    && |s.sent| + |s.points| + (if s.points == [] then 1 else 0) <= budget
  }

  lemma ContinueKeepsLastCheckpoint(numEvent: int, s: PollState, o: Observation, budget: nat)
    requires LastCheckpointInvariant(numEvent, s, budget) && o.count <= numEvent
    ensures LastCheckpointInvariant(numEvent, Continue(numEvent, s, o), budget)
  {
    var p, c := s.points, o.count;
    NextPointsFacts(p, c);
    if s.countOld != c && Fires(p, c) {
      var next := Above(p, c);
      AboveOfSorted(p, c);
      var k := |p| - |next|;
      if c < numEvent {
        assert p[|p| - 1] in next;
        assert next[|next| - 1] == p[|p| - 1];
      }
    }
  }

  lemma {:induction false} PollKeepsLastCheckpoint(numEvent: int, s: PollState, obs: seq<Observation>, budget: nat)
    requires LastCheckpointInvariant(numEvent, s, budget)
    ensures var r := Poll(numEvent, s, obs);
      |if r.Finished? then r.sent else r.state.sent| < budget
    decreases |obs|
  {
    if obs != [] && obs[0].count <= numEvent {
      ContinueKeepsLastCheckpoint(numEvent, s, obs[0], budget);
      PollKeepsLastCheckpoint(numEvent, Continue(numEvent, s, obs[0]), obs[1..], budget);
    }
  }

  /**
   * Because `report` needs a checkpoint strictly below the count and the stopping tick does
   * not report, the last checkpoint, `numEvent` itself, never causes a notification of its
   * own: a run sends fewer notifications than there are checkpoints, at most four.
   */
  lemma RunNotifiesFewerThanCheckpoints(numEvent: int, obs: seq<Observation>)
    requires numEvent >= 1
    ensures var r := Poll(numEvent, Start(numEvent), obs);
      |if r.Finished? then r.sent else r.state.sent| < |Checkpoints(numEvent, DefaultUpdates)|
  {
    var s := Start(numEvent);
    CheckpointsInRange(numEvent, DefaultUpdates);
    PollKeepsLastCheckpoint(numEvent, s, obs, |s.points|);
  }

  /** The ticks of the back-fill example: counts 0, 0, 3, 3, 5 at seconds 0..4. */
  function ExampleTicks(): seq<Observation> {
    [Observation(0, 0), Observation(0, 1), Observation(3, 2), Observation(3, 3), Observation(5, 4)]
  }

  /** The example's flags depend only on `count_old` and the flags, not on the checkpoints. */
  lemma BackfillExampleFrom(s0: PollState)
    requires s0.countOld == 0 && s0.timeFlags == []
    ensures Poll(4, s0, ExampleTicks()).Finished? && Poll(4, s0, ExampleTicks()).timeFlags == [2, 2, 2, 4]
  {
    var obs := ExampleTicks();
    var s1 := Continue(4, s0, obs[0]);
    var s2 := Continue(4, s1, obs[1]);
    var s3 := Continue(4, s2, obs[2]);
    var s4 := Continue(4, s3, obs[3]);
    assert s2.timeFlags == [] && s2.countOld == 0;
    assert s3.timeFlags == [2, 2, 2] && s3.countOld == 3;
    assert s4.timeFlags == [2, 2, 2] && s4.countOld == 3;
    assert Backfill(s4.timeFlags, 3, 5, 4) == [2, 2, 2, 4, 4];
    assert Poll(4, s4, obs[4..]).timeFlags == [2, 2, 2, 4];
    assert Poll(4, s3, obs[3..]) == Poll(4, s4, obs[4..]);
    assert Poll(4, s2, obs[2..]) == Poll(4, s3, obs[3..]);
    assert Poll(4, s1, obs[1..]) == Poll(4, s2, obs[2..]);
    assert Poll(4, s0, obs) == Poll(4, s1, obs[1..]);
  }

  /**
   * Back-fill example with a target of 4: counts 0, 0, 3, 3, 5 at seconds
   * 0..4 give three flags at second 2 and one at second 4, the fifth being cut off.
   */
  lemma BackfillExample()
    ensures Poll(4, Start(4), ExampleTicks()).Finished?
    ensures Poll(4, Start(4), ExampleTicks()).timeFlags == [2, 2, 2, 4]
  {
    BackfillExampleFrom(Start(4));
  }
}
