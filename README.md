# DGTZ-Plugin WaveDump supervisor, modelled in Dafny

The plugin runs the WaveDump acquisition program, polls the size of its output file
`wave_0.dat` once a second to infer how many events have been written, sends progress
notifications at a few evenly spaced checkpoints, and stops the acquisition when the
target count is exceeded, returning one completion timestamp ("time flag") per event.

This project models the deterministic logic under that orchestration:

- `Duration` (`duration.dfy`): `sec2hms`, whole seconds rendered as `HH:MM:SS` through
  `gmtime`, so only the time of day is kept; a parser for the same format is its inverse.
- `CountEstimator` (`count.dfy`): `getCurrentCount`, the file size (or `None` when the
  file cannot be read) turned into a whole number of events of `4 * numSample` bytes.
- `Checkpointing` (`checkpoints.dfy`): the checkpoints built by `progressMonitor.__init__`,
  `unique(linspace(0, numEvent, numUpdate + 1).astype('int32'))[1:]`.
- `Monitor` (`monitor.dfy`): the `progressMonitor` class. Its field `points` is reassigned
  by `Report`, which sends at most one notification per call and then keeps only the
  checkpoints above the count. `Replay` is the pure account of a series of calls.
- `Cleanup` (`cleanup.dfy`): the `prevResult` name predicate, Python's `in` on strings,
  and the loop that removes the previous run's raw files, skipping failed removals.
- `Supervisor` (`supervisor.dfy`): the bookkeeping of `runWaveDump`'s `while True` loop,
  run as a method over a finite sequence of observations `(count, elapsed)`. `Poll` is the
  specification of that method; the stop rule, the length and order of the returned time
  flags and the notifications sent are proved about it.
- `Sequences` and `Wrappers`: order predicates, Python's `s[:n]`, and `Option`.

Behaviour of the program that the model keeps as written:

- The loop stops only when the count is strictly greater than `numEvent`
  (runWaveDump_220410.py:119). A run whose count reaches exactly `numEvent` keeps polling.
  `Supervisor.BackfillExample` therefore runs the counts 0, 0, 3, 3, 5 against a target of 4,
  so that its last tick stops the loop.
- The checkpoints are the points of `linspace` after the int32 cast
  (runWaveDump_220410.py:51), which truncates toward zero.
- `report` fires only when a checkpoint is strictly below the count
  (runWaveDump_220410.py:55). Reaching a checkpoint exactly does not notify, and the
  stopping tick never reports (runWaveDump_220410.py:119-127 come before the report at
  :132-134). So the last checkpoint, `numEvent`, never causes a notification of its own,
  and for a positive target with the default 5 updates a run sends at most four
  notifications (`Supervisor.RunNotifiesFewerThanCheckpoints`).
- `sec2hms` does not check its argument (runWaveDump_220410.py:22-23). `Sec2Hms` takes a
  `nat`, because the program only passes elapsed times and estimates that are not negative.
- The cleanup loop removes the previous run's files in the order of the directory listing.
  When a removal raises, the loop skips that file with `continue` and goes on
  (runWaveDump_220410.py:90-95).

Inputs the program reads from its environment are parameters: the file size, the
observations of each tick (count and whole elapsed seconds), the directory listing, and
the set of names whose `remove` raises. A notification is returned as a value
`Notification(count, numEvent, elapsed)` instead of being sent.

## Model

| member | source | states |
|---|---|---|
| Duration.TimeOfDay | runWaveDump_220410.py:22-23 | the `gmtime` fields of `sec`: hours below 24, minutes and seconds below 60, and `h*3600 + m*60 + s == sec mod 86400` |
| Duration.TimeOfDayUnique | runWaveDump_220410.py:22-23 | any valid reading of `sec mod 86400` seconds is the one TimeOfDay gives |
| Duration.Sec2Hms | runWaveDump_220410.py:22-23 | `sec2hms` gives 8 characters with `:` at indices 2 and 5, and parsing it back yields the time of day of `sec` |
| Duration.Sec2HmsSameIff | runWaveDump_220410.py:22-23 | two durations print the same iff they are equal modulo 86400 seconds (the 24 h wrap, both directions) |
| Duration.Sec2HmsWrapsDaily | runWaveDump_220410.py:22-23 | adding any number of whole days leaves the printed duration unchanged |
| CountEstimator.CurrentCount | runWaveDump_220410.py:32-37 | an unreadable file or `numSample == 0` counts 0; otherwise `r*4*numSample <= size < (r+1)*4*numSample`, truncated toward zero for a negative `numSample` |
| CountEstimator.CurrentCountUnique | runWaveDump_220410.py:32-37 | the count is the only whole number of events that brackets the file size |
| CountEstimator.CurrentCountOfWholeEvents | runWaveDump_220410.py:32-37 | a file of exactly `4*numSample*k` bytes counts `k` |
| CountEstimator.CurrentCountMonotone | runWaveDump_220410.py:32-37 | a growing file never gives a smaller count |
| Checkpointing.TruncDivBracket | runWaveDump_220410.py:51 | the int32 cast of a non-negative quotient truncates: the result is bracketed by multiples of the divisor |
| Checkpointing.Linspace | runWaveDump_220410.py:51 | `numUpdate + 1` points starting at 0, point `i` being `i*numEvent/numUpdate` truncated; a single point is the start; for `numEvent >= 0` every point lies in `[0, numEvent]` and the last one is `numEvent` |
| Checkpointing.SortedUnique | runWaveDump_220410.py:51 | `unique`: strictly increasing, with exactly the elements of its input, and no longer than it |
| Checkpointing.SortedUniqueOfIncreasing | runWaveDump_220410.py:51 | `unique` leaves an input that is already strictly increasing unchanged |
| Checkpointing.Checkpoints | runWaveDump_220410.py:50-51 | the checkpoints are strictly increasing and there are at most `numUpdate` of them |
| Checkpointing.CheckpointsInRange | runWaveDump_220410.py:50-51 | for `numEvent >= 1` and `numUpdate >= 1`: at least one checkpoint, all in `[1, numEvent]`, the last equal to `numEvent` |
| Checkpointing.SmallestPointIsZero | runWaveDump_220410.py:51 | for `numEvent >= 0` the element dropped by `[1:]` is the start point 0 |
| Checkpointing.CheckpointsMembers | runWaveDump_220410.py:51 | for `numEvent >= 0`, x is a checkpoint iff x is non-zero and equals `i*numEvent/numUpdate` (truncated) for some `1 <= i <= numUpdate` |
| Checkpointing.CheckpointsOfHundred | runWaveDump_220410.py:50-51 | `numEvent = 100` with the default 5 updates gives `[20, 40, 60, 80, 100]` |
| Monitor.Above | runWaveDump_220410.py:57 | `points[points > count]` keeps exactly the elements above the count, never more than it had |
| Monitor.Fires | runWaveDump_220410.py:54-55 | `report` sends iff a checkpoint remains and the first is below the count; on sorted checkpoints, iff some remaining checkpoint is below the count |
| Monitor.NextPoints | runWaveDump_220410.py:54-57 | after a call that sends, exactly the old checkpoints above the count remain; after any other call, all of them; never a new one |
| Monitor.AboveOfSorted | runWaveDump_220410.py:57 | on sorted checkpoints the filter keeps a suffix, and removes exactly the leading ones that are at most the count |
| Monitor.FiringShrinks | runWaveDump_220410.py:54-57 | a firing call removes at least one checkpoint; a call that does not fire removes none |
| Monitor.NextPointsFacts | runWaveDump_220410.py:53-58 | after one call the checkpoints are still sorted and a subset of the old ones; after firing all exceed the count and there are fewer |
| Monitor.Replay | runWaveDump_220410.py:53-58 | the counts at which a series of `report` calls notifies: no more notifications than calls, each at one of the counts reported |
| Monitor.ProgressMonitor.constructor | runWaveDump_220410.py:50-52 | the new monitor holds `Checkpoints(numEvent, numUpdate)`, default 5 updates |
| Monitor.ProgressMonitor.Report | runWaveDump_220410.py:53-58 | sends iff checkpoints remain and the first is below the count, and then at most one notification; after firing the checkpoints are the old ones above the count, otherwise unchanged; always a suffix of the old, strictly shorter after firing |
| Monitor.ReplayFacts | runWaveDump_220410.py:53-58 | over any series of calls, no more notifications than checkpoints, sent at strictly increasing counts, each above the first checkpoint remaining |
| Monitor.ReplayOfHundred | runWaveDump_220410.py:53-58 | counts 5, 25, 65, 100 against `[20, 40, 60, 80, 100]` notify three times, at 25, 65 and 100 |
| Cleanup.IsSubstringIff | runWaveDump_220410.py:89 | Python's `sub in s` holds iff `sub` occurs in `s` at some index |
| Cleanup.PrevResult | runWaveDump_220410.py:89 | a name is a previous result iff `wave_` or `TR_` occurs in it at some index and `.dat` occurs in it at some index |
| Cleanup.PrevResultMatchesWave | runWaveDump_220410.py:89 | `wave_0.dat` is a previous result |
| Cleanup.PrevResultMatchesTrigger | runWaveDump_220410.py:89 | `TR_0_0.dat` is a previous result |
| Cleanup.PrevResultSparesArray | runWaveDump_220410.py:89 | `wave_0.npy` is not a previous result |
| Cleanup.PrevResultSparesOtherDat | runWaveDump_220410.py:89 | `config.dat` is not a previous result |
| Cleanup.ClearPreviousResults | runWaveDump_220410.py:88-95 | a name is removed iff it is listed, matches `prevResult` and its removal does not fail; every other listed name stays; each listed name ends up in exactly one of the two, and both lists keep the listing's order |
| Sequences.PyPrefix | runWaveDump_220410.py:136 | `timeFlags[:numEvent]` is a prefix of the flags, of length `min(n, len)` for `n >= 0` and `max(0, len + n)` for negative `n` |
| Supervisor.Start | runWaveDump_220410.py:85-86 | the loop starts with `count_old = 0`, no flags and no notifications, holding the monitor's checkpoints: sorted, at most 5, and for a positive target all in `[1, numEvent]` with the last equal to `numEvent` |
| Supervisor.Backfill | runWaveDump_220410.py:115-116 | the flags so far, followed by exactly `max(0, count - count_old)` copies of this tick's elapsed time |
| Supervisor.AppendFlags | runWaveDump_220410.py:115-116 | the inner `for` loop leaves exactly the back-filled flags |
| Supervisor.Continue | runWaveDump_220410.py:109-134 | a tick that does not stop: `count_old` becomes the count, the flags are back-filled, and a notification for this tick is added iff the count changed and the checkpoint test fires, at most one; when the count changed the checkpoints become those `report` leaves (`NextPoints`), otherwise they are untouched |
| Supervisor.Poll | runWaveDump_220410.py:105-136 | the loop over the ticks: notifications are only appended to those already sent, at most one per tick |
| Supervisor.Advance | runWaveDump_220410.py:109-134 | after ticks none of which stops the loop, `count_old` is the last tick's count, and notifications were only appended, at most one per tick |
| Supervisor.RunWaveDump | runWaveDump_220410.py:82-136 | the loop over the ticks, with a fresh monitor, computes exactly `Poll` from the start state |
| Supervisor.PollStopsIff | runWaveDump_220410.py:107-127 | the loop stops iff some tick's count exceeds `numEvent` |
| Supervisor.PollStopsAtFirst | runWaveDump_220410.py:119-136 | it stops at the first such tick, returns the first `numEvent` flags after that tick's back-fill, and sends nothing on that tick |
| Supervisor.FinishedHasTargetLength | runWaveDump_220410.py:105-136 | from any state with at least `count_old` flags, a run that stops returns exactly `numEvent` flags for `numEvent >= 0` |
| Supervisor.RunHasTargetLength | runWaveDump_220410.py:105-136 | a run from the start that stops returns exactly `numEvent` flags, for any counts, monotone or not |
| Supervisor.BackfillOrdered | runWaveDump_220410.py:115-116 | back-filling sorted flags that are no later than the tick keeps them sorted |
| Supervisor.FinishedFlagsSorted | runWaveDump_220410.py:105-136 | with non-decreasing elapsed times and sorted flags so far, the returned flags are sorted |
| Supervisor.RunFlagsSorted | runWaveDump_220410.py:105-136 | from the start, non-decreasing elapsed times give sorted returned flags |
| Supervisor.ContinueKeepsNotes | runWaveDump_220410.py:132-134 | a non-stopping tick keeps the checkpoints sorted, the notification budget, increasing notification counts, and every remaining checkpoint above the last count notified |
| Supervisor.PollKeepsNotes | runWaveDump_220410.py:107-134 | the same holds after any number of ticks, stopped or not |
| Supervisor.RunNotifications | runWaveDump_220410.py:85-134 | a run sends at most as many notifications as checkpoints (at most 5), at strictly increasing counts, none above `numEvent` |
| Supervisor.ContinueKeepsLastCheckpoint | runWaveDump_220410.py:53-58 | a non-stopping tick keeps the last remaining checkpoint equal to `numEvent`, and a notification always uses up a checkpoint below `numEvent` |
| Supervisor.PollKeepsLastCheckpoint | runWaveDump_220410.py:107-134 | from a state satisfying that invariant, fewer notifications are sent than the checkpoint budget |
| Supervisor.RunNotifiesFewerThanCheckpoints | runWaveDump_220410.py:53-58 | for `numEvent >= 1` a run sends strictly fewer notifications than there are checkpoints: the last checkpoint never triggers one by itself |
| Supervisor.BackfillExampleFrom | runWaveDump_220410.py:105-136 | from any state with `count_old = 0` and no flags, counts 0, 0, 3, 3, 5 at seconds 0 to 4 with target 4 return `[2, 2, 2, 4]`, whatever the checkpoints |
| Supervisor.BackfillExample | runWaveDump_220410.py:105-136 | counts 0, 0, 3, 3, 5 at seconds 0 to 4 with target 4 stop on the last tick and return `[2, 2, 2, 4]` |

## Left out

- Process control: launching `WaveDump.exe`, the start, write, stop and quit keystrokes through `win32console`, `proc.poll()`, and the quit retry loop that has no bound. All of these depend on the external program and the console.
- `sleep` and `time()`: every tick's elapsed time is supplied, in whole seconds.
- The ETA estimate and the status line. The estimate is float arithmetic with a `1e-9` epsilon, so notifications carry the count, the target and the elapsed time but not the ETA. `report` formats `sec2hms(ETA)` (runWaveDump_220410.py:56) before `sendReport`'s `try`, so an ETA outside `gmtime`'s range raises out of `report` and ends the loop. That failure is not modelled: `Monitor.ProgressMonitor.Report` always returns.
- `sendReport`: the message text (`{count:4d}` padding) and the Telegram call with its swallowed failure. A notification is returned as a value.
- `saveAsDatOrNumpy` and `postProcessing`: numpy reading, reshaping and saving, directory creation and timestamped names. These are file I/O.
- The command-line parsing of `argv`, the saving of the time flags, and the final counts-per-second report.
- Checkpointing.Linspace: float rounding of `numpy.linspace` is not modelled. The points are exact quotients truncated toward zero, and values outside the int32 range are not wrapped.
- CountEstimator.CurrentCount: the two float divisions are taken as exact. Sizes beyond float precision (2^53 bytes) are not modelled.
- Duration.Sec2Hms: takes whole non-negative seconds. The truncation of a float duration by `gmtime` happens before the call, and dates before 1970 are not modelled.
- Supervisor.RunWaveDump: ticks are a finite sequence. When it runs out before the stop condition, the loop's state is returned (`StillPolling`), whereas the program would poll for ever.
- The flag values are whole seconds rather than float32 seconds.
