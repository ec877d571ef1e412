/**
 Sequences of calls on one elastic delay buffer. Each call carries a guard:
 the assertions its implementation makes on entry, plus `numSamples != 0` for
 a pull. A run stops at the first call that breaks its guard (in the
 implementation such a call is a programming error, or a division by zero,
 with unchecked behaviour, so nothing is said about what follows it).
 */
module Trace {
  import opened Ring
  import opened ElasticDelayBuffer

  /** One call on the buffer, with its arguments. The resamplers' reported
      consumption of a pull is part of the call. */
  datatype Call =
    | SetSizeCall(numChannels: int, numSamples: int, sampleRate: real)
    | SetDelayCall(delay: int)
    | SetMaxFactorCall(factor: real)
    | ResetCall
    | UpdateDelayCall
    | PushCall(input: seq<seq<Sample>>, pushSamples: int, gain: Sample)
    | AddCall(addInput: seq<seq<Sample>>, addSamples: int, addGain: Sample)
    | PullCall(outputLength: nat, pullSamples: int, delayTime: int, used: seq<nat>)

  /** The guard of each call: the assertions its implementation makes on
      entry, plus `numSamples != 0` for a pull, whose factor divides by it.
      The range check `getReadPointer` makes on the read cursor during a pull
      is not part of the guard. */
  predicate Admissible(b: DelayBuffer, c: Call)
  {
    match c
    case SetSizeCall(numChannels, numSamples, _) => 0 <= numChannels && 0 <= numSamples
    case SetDelayCall(delay) => delay < b.capacity
    case SetMaxFactorCall(_) => true
    case ResetCall => true
    case UpdateDelayCall => true
    case PushCall(input, n, _) =>
      && 0 <= n < b.capacity && |input| == |b.samples|
      && forall ch :: 0 <= ch < |input| ==> n <= |input[ch]|
    case AddCall(input, n, _) =>
      && 0 <= n < b.capacity && |input| == |b.samples|
      && forall ch :: 0 <= ch < |input| ==> n <= |input[ch]|
    case PullCall(outputLength, numSamples, _, used) =>
      outputLength < b.capacity && |used| == |b.samples| && numSamples != 0
  }

  /** The state after one admissible call. */
  function Step(b: DelayBuffer, c: Call): (r: DelayBuffer)
    requires Valid(b) && Admissible(b, c)
    ensures Valid(r)
  {
    match c
    case SetSizeCall(numChannels, numSamples, sampleRate) => SetSize(b, numChannels, numSamples, sampleRate)
    case SetDelayCall(delay) => SetNumSamplesDelay(b, delay)
    case SetMaxFactorCall(factor) => SetMaxResamplingFactor(b, factor)
    case ResetCall => Reset(b)
    case UpdateDelayCall => UpdateActualSampleDelay(b)
    case PushCall(input, n, gain) => PushBlock(b, input, n, gain)
    case AddCall(input, n, gain) => AddToPushedBlock(b, input, n, gain)
    case PullCall(outputLength, numSamples, delayTime, used) =>
      PullBlock(b, outputLength, numSamples, delayTime, used).buffer
  }

  /** How a run of calls ends: with the final state, or stopped at the first
      call that broke its precondition, with the state reached before it. */
  datatype Outcome = Completed(state: DelayBuffer) | Stopped(at: nat, before: DelayBuffer)

  /** Runs `calls` in order from `b`. Every state a run passes through
      satisfies the invariant: the write cursor within `[0, capacity]`, the
      read cursor non-negative, one resampler per channel, and the stored delay
      equal to the forward distance between the cursors. */
  function Run(b: DelayBuffer, calls: seq<Call>): (o: Outcome)
    requires Valid(b)
    ensures o.Completed? ==> Valid(o.state)
    ensures o.Stopped? ==> Valid(o.before) && o.at < |calls| && !Admissible(o.before, calls[o.at])
    decreases |calls|
  {
    if |calls| == 0 then Completed(b)
    else if !Admissible(b, calls[0]) then Stopped(0, b)
    else
      match Run(Step(b, calls[0]), calls[1..])
      case Completed(s) => Completed(s)
      case Stopped(at, before) => Stopped(at + 1, before)
  }

  /** Extending a completed run by one admissible call steps from its final
      state. */
  lemma {:induction false} RunSnoc(b: DelayBuffer, calls: seq<Call>, c: Call)
    requires Valid(b)
    requires Run(b, calls).Completed?
    requires Admissible(Run(b, calls).state, c)
    ensures Run(b, calls + [c]) == Completed(Step(Run(b, calls).state, c))
    decreases |calls|
  {
    if |calls| == 0 {
      assert calls + [c] == [c];
      assert [c][1..] == [];
    } else {
      assert (calls + [c])[0] == calls[0];
      assert (calls + [c])[1..] == calls[1..] + [c];
      RunSnoc(Step(b, calls[0]), calls[1..], c);
    }
  }

  /** A run stops at the FIRST call that breaks its precondition: the calls
      before it form a run that completes, in the state the run stopped in. */
  lemma {:induction false} StoppedAtFirstFailure(b: DelayBuffer, calls: seq<Call>)
    requires Valid(b)
    requires Run(b, calls).Stopped?
    ensures Run(b, calls[..Run(b, calls).at]) == Completed(Run(b, calls).before)
    decreases |calls|
  {
    var o := Run(b, calls);
    if o.at == 0 {
      assert calls[..0] == [];
    } else {
      StoppedAtFirstFailure(Step(b, calls[0]), calls[1..]);
      assert calls[..o.at][0] == calls[0];
      assert calls[..o.at][1..] == calls[1..][..o.at - 1];
    }
  }

  /** Whatever came before, a run that ends with a pull leaves the read cursor
      inside the ring and the reported delay within one turn. */
  lemma EndingWithPullBoundsCursors(b: DelayBuffer, calls: seq<Call>, pull: Call)
    requires Valid(b)
    requires pull.PullCall?
    requires Run(b, calls).Completed?
    requires Admissible(Run(b, calls).state, pull)
    ensures var o := Run(b, calls + [pull]);
            && o.Completed?
            && 0 <= o.state.readPosition < o.state.capacity
            && 0 <= GetActualSampleDelay(o.state) <= o.state.capacity
  {
    RunSnoc(b, calls, pull);
    var s := Run(b, calls + [pull]).state;
    ForwardDistanceReachesWrite(s.writePosition, s.readPosition, s.capacity);
  }
}
