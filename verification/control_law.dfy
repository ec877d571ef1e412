/**
 The drift-correcting control law of the elastic delay buffer's pull: the
 error between the delay the read cursor would reach by consuming exactly one
 block and the requested delay is mapped proportionally to a resampling factor
 around 1, which is then saturated, first from below at `MinFactor` and then
 from above at the configured maximum. Computed over the reals;
 `ElasticDelayBuffer::pullBlock` computes it in double precision.
 */
module ControlLaw {

  /** The floor below which the factor is never left, so that consumption never stalls. */
  const MinFactor: real := 0.0001

  /** Default upper bound of the factor, as a freshly constructed buffer has it. */
  const DefaultMaxFactor: real := 8.0

  /** How far the gap after consuming one block of `numSamples` source samples
      would be from the requested `delayTime`: positive when the buffer holds
      too much. */
  function DelayError(currentDelay: int, numSamples: int, delayTime: int): int
  {
    (currentDelay - numSamples) - delayTime
  }

  /** The proportional law before saturation: one plus the error spread over
      eight blocks. */
  function ProportionalFactor(difference: int, numSamples: int): real
    requires numSamples != 0
  {
    1.0 + (difference as real) / ((numSamples as real) * 8.0)
  }

  /** The two saturation steps of `ElasticDelayBuffer::pullBlock`, in their
      order: raise to the floor, then cut to the maximum (so the maximum wins
      when it lies below the floor). */
  function Saturate(raw: real, maxFactor: real): (f: real)
    ensures f <= maxFactor
    ensures MinFactor <= maxFactor ==> MinFactor <= f
    ensures MinFactor <= raw <= maxFactor ==> f == raw
  {
    var lifted := if raw < MinFactor then MinFactor else raw;
    if lifted > maxFactor then maxFactor else lifted
  }

  /** The resampling factor a pull applies, given the measured delay, the block
      length, the requested delay and the configured maximum. */
  function ResamplingFactor(currentDelay: int, numSamples: int, delayTime: int, maxFactor: real): (f: real)
    requires numSamples != 0
    ensures f <= maxFactor
    ensures MinFactor <= maxFactor ==> MinFactor <= f
  {
    Saturate(ProportionalFactor(DelayError(currentDelay, numSamples, delayTime), numSamples), maxFactor)
  }

  /** Reference clamp: the nearest point of `[lo, hi]` to `x`. */
  function Clamp(x: real, lo: real, hi: real): real
    requires lo <= hi
  {
    if x < lo then lo else if hi < x then hi else x
  }

  /** When the bounds are ordered, the two sequential saturation steps are the
      clamp into `[MinFactor, maxFactor]`; when they are not, the maximum is
      returned whatever the input. */
  lemma SaturateIsClamp(raw: real, maxFactor: real)
    ensures MinFactor <= maxFactor ==> Saturate(raw, maxFactor) == Clamp(raw, MinFactor, maxFactor)
    ensures maxFactor < MinFactor ==> Saturate(raw, maxFactor) == maxFactor
  {
  }

  /** At equilibrium, when consuming exactly one block would leave the
      requested delay, no correction is applied (provided 1 is an admissible
      factor, as it is for the default maximum). */
  lemma EquilibriumIsUnity(currentDelay: int, numSamples: int, delayTime: int, maxFactor: real)
    requires numSamples != 0
    requires currentDelay - numSamples == delayTime
    requires 1.0 <= maxFactor
    ensures ResamplingFactor(currentDelay, numSamples, delayTime, maxFactor) == 1.0
  {
  }

  /** Direction of the correction for a positive block length: a buffer that
      holds too much is read at least at unit rate, one that holds too little
      at most at unit rate. */
  lemma CorrectionDirection(currentDelay: int, numSamples: int, delayTime: int, maxFactor: real)
    requires numSamples > 0
    ensures var f := ResamplingFactor(currentDelay, numSamples, delayTime, maxFactor);
            && (DelayError(currentDelay, numSamples, delayTime) > 0 && 1.0 <= maxFactor ==> f >= 1.0)
            && (DelayError(currentDelay, numSamples, delayTime) < 0 ==> f <= 1.0)
  {
    var e := DelayError(currentDelay, numSamples, delayTime);
    var q := (e as real) / ((numSamples as real) * 8.0);
    if e > 0 {
      assert q > 0.0;
    } else if e < 0 {
      assert q < 0.0;
    }
  }

  /** The factor never decreases as the error grows (same block length and
      maximum): a fuller buffer is never read more slowly. */
  lemma FactorMonotone(e1: int, e2: int, numSamples: int, maxFactor: real)
    requires numSamples > 0 && e1 <= e2
    ensures Saturate(ProportionalFactor(e1, numSamples), maxFactor)
            <= Saturate(ProportionalFactor(e2, numSamples), maxFactor)
  {
    var d := (numSamples as real) * 8.0;
    assert d > 0.0;
    assert (e1 as real) / d <= (e2 as real) / d by {
      assert (e2 as real) / d - (e1 as real) / d == ((e2 - e1) as real) / d;
    }
  }

  /** Between the two saturation bounds the factor is exactly the proportional
      law: the deviation from 1 is the error over eight blocks. */
  lemma UnsaturatedIsProportional(currentDelay: int, numSamples: int, delayTime: int, maxFactor: real)
    requires numSamples != 0
    requires var raw := ProportionalFactor(DelayError(currentDelay, numSamples, delayTime), numSamples);
             MinFactor <= raw <= maxFactor
    ensures var f := ResamplingFactor(currentDelay, numSamples, delayTime, maxFactor);
            (f - 1.0) * (numSamples as real) * 8.0 == DelayError(currentDelay, numSamples, delayTime) as real
  {
    var n := (numSamples as real) * 8.0;
    var e := DelayError(currentDelay, numSamples, delayTime) as real;
    assert (e / n) * n == e;
  }

  /** Dividing by a positive real preserves both orderings against a bound. */
  lemma DivideBound(x: real, y: real, n: real)
    requires n > 0.0
    ensures x >= y * n ==> x / n >= y
    ensures x <= y * n ==> x / n <= y
  {
    var q := x / n;
    assert q * n == x;
    assert (q - y) * n == x - y * n;
  }

  /** Saturation from above: an error of at least `(maxFactor - 1)` times eight
      blocks yields exactly the maximum. */
  lemma SaturatesHigh(difference: int, numSamples: int, maxFactor: real)
    requires numSamples > 0 && MinFactor <= maxFactor
    requires (difference as real) >= (maxFactor - 1.0) * (numSamples as real) * 8.0
    ensures Saturate(ProportionalFactor(difference, numSamples), maxFactor) == maxFactor
  {
    var n := (numSamples as real) * 8.0;
    assert n > 0.0;
    DivideBound(difference as real, maxFactor - 1.0, n);
  }

  /** Saturation from below: an error of at most `(MinFactor - 1)` times eight
      blocks yields exactly the floor. */
  lemma SaturatesLow(difference: int, numSamples: int, maxFactor: real)
    requires numSamples > 0 && MinFactor <= maxFactor
    requires (difference as real) <= (MinFactor - 1.0) * (numSamples as real) * 8.0
    ensures Saturate(ProportionalFactor(difference, numSamples), maxFactor) == MinFactor
  {
    var n := (numSamples as real) * 8.0;
    assert n > 0.0;
    DivideBound(difference as real, MinFactor - 1.0, n);
  }
}
