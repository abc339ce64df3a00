/**
 * `getCurrentCount`: the number of finished events inferred from the size of the growing
 * output file `wave_0.dat`, each event being `numSample` four-byte samples.
 */
module CountEstimator {
  import opened Wrappers
  import opened Sequences

  /** Bytes in one sample value (a float32). */
  const SampleBytes: nat := 4

  /**
   * `int(size / 4 / numSample)`, with the file size as `Some(size)` and a file that cannot
   * be read as `None`. The bare `except` also swallows the division by zero, so
   * `numSample == 0` gives 0 as well; `int` truncates toward zero for a negative quotient.
   */
  function CurrentCount(size: Option<nat>, numSample: int): (r: int)
    ensures size.None? || numSample == 0 ==> r == 0
    ensures size.Some? && numSample > 0 ==>
      0 <= r && r * (SampleBytes * numSample) <= size.value < (r + 1) * (SampleBytes * numSample)
    ensures size.Some? && numSample < 0 ==>
      r <= 0 && -r * (SampleBytes * -numSample) <= size.value < (-r + 1) * (SampleBytes * -numSample)
  {
    match size
    case None => 0
    case Some(bytes) =>
      if numSample == 0 then 0
      else if numSample > 0 then bytes / (SampleBytes * numSample)
      else -(bytes / (SampleBytes * -numSample))
  }

  /** The count is the only number of whole events that fits in the file. */
  lemma CurrentCountUnique(size: nat, numSample: nat, k: int)
    requires numSample > 0
    requires 0 <= k && k * (SampleBytes * numSample) <= size < (k + 1) * (SampleBytes * numSample)
    ensures CurrentCount(Some(size), numSample) == k
  {
    var w := SampleBytes * numSample;
    var r := CurrentCount(Some(size), numSample);
    if r < k {
      MulLe(r + 1, k, w);
      assert false;
    } else if k < r {
      MulLe(k + 1, r, w);
      assert false;
    }
  }

  /** A file holding exactly `k` events of `numSample` samples is counted as `k`. */
  lemma CurrentCountOfWholeEvents(numSample: nat, k: nat)
    requires numSample > 0
    ensures CurrentCount(Some(SampleBytes * numSample * k), numSample) == k
  {
    var w := SampleBytes * numSample;
    assert k * w == SampleBytes * numSample * k;
    assert (k + 1) * w == k * w + w;
    CurrentCountUnique(SampleBytes * numSample * k, numSample, k);
  }

  /** The count never decreases while the file grows. */
  lemma CurrentCountMonotone(size: nat, bigger: nat, numSample: nat)
    requires numSample > 0 && size <= bigger
    ensures CurrentCount(Some(size), numSample) <= CurrentCount(Some(bigger), numSample)
  {
    var w := SampleBytes * numSample;
    var r, q := CurrentCount(Some(size), numSample), CurrentCount(Some(bigger), numSample);
    if q < r {
      MulLe(q + 1, r, w);
      assert false;
    }
  }
}
