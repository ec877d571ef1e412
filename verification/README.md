# Elastic delay buffer — Dafny model

A model of `ElasticDelayBuffer` from the ff_buffers JUCE module. It is a
multichannel ring of `capacity` samples per channel with a write cursor and a
read cursor. A producer overwrites blocks at the write cursor (`pushBlock`) or
mixes into the block it just wrote (`addToPushedBlock`). A consumer pulls
blocks through one fractional resampler per channel (`pullBlock`). The
resampling factor comes from a saturated proportional control law that steers
the actual delay toward the requested one. The actual delay is the forward
distance from the read cursor to the write cursor.

Files:

- `ring.dfy` (module `Ring`): the forward distance between cursors, wrap and
  residue lemmas, and the per-channel `copyFrom`/`addFrom` primitives.
- `control_law.dfy` (module `ControlLaw`): the resampling factor and its
  properties (bounds, equilibrium, direction, monotonicity, saturation).
- `elastic_delay_buffer.dfy` (module `ElasticDelayBuffer`): the state record
  `DelayBuffer`, its invariant `Valid`, and one pure transition per public
  member of the class.
- `trace.dfy` (module `Trace`): runs of calls. Each call is guarded by its
  entry assertions, plus `numSamples != 0` for a pull. The range check of
  `getReadPointer` is not among the guards.

How the model represents the class:

- Samples are `real`, so gain scaling and mixing are exact.
- The resampling factor is computed over `real`.
- A resampler is reduced to the number of blocks it has processed since its
  last reset. `reset` sets it to 0 and each pull adds 1.
- The count of source samples each resampler reports as consumed is an input
  of the pull (`used`, one count per channel). As in `pullBlock`, only the last
  channel's count moves the read cursor, and the count is 0 when there are no
  channels.

Where the cursors go:

- Neither cursor is kept inside `[0, capacity)`. A push that ends exactly at
  the end of the ring leaves the write cursor on `capacity` (lines 84-89).
  From there, `setNumSamplesDelay(d)` with `0 <= d` puts the read cursor on
  `capacity - d` (line 53), so `setNumSamplesDelay(0)` puts it on `capacity`
  as well (`SetNumSamplesDelay`, `FullPushParksCursorsAtCapacity`).
- A negative delay passes the assertion on line 51 and puts the read cursor
  on `write - delay` without wrapping (lines 52-53). With capacity 4, write
  cursor 0 and delay -10, the read cursor lands on 10, past the ring, and
  the reported delay is -6 (line 70; `NegativeDelayStrandsReadCursor`).
- `setSize` never moves the read cursor (lines 31-48). Shrinking the ring can
  therefore leave the read cursor outside it, and the reported delay becomes
  negative (`ShrinkStrandsReadCursor`).
- The invariant that does hold, and that `Valid` states, is this: the write
  cursor lies in `[0, capacity]`, the read cursor is non-negative, there is
  one resampler per channel, and the stored delay equals the forward distance
  between the cursors. Every call keeps it (`Trace.Run`). A pull always brings
  the read cursor back into `[0, capacity)` (`Trace.EndingWithPullBoundsCursors`).
- `pullBlock` checks the capacity against the output buffer's length, not
  against the requested `numSamples` (line 125). The model's precondition
  does the same.

## Model

| member | source | states |
|---|---|---|
| `Ring.ForwardDistanceReachesWrite` | ff_buffers_ElasticDelayBuffer.h:68-71 | With the read cursor in `[0, C)` and the write cursor in `[0, C]`, the delay lies in `[0, C]`. Advancing the read cursor by the delay reaches the write cursor modulo `C`. The delay equals `C` exactly when the write cursor is on `C` and the read cursor is on 0. |
| `Ring.ForwardDistanceIsResidue` | ff_buffers_ElasticDelayBuffer.h:68-71 | With both cursors in `[0, C)`, the conditional-add distance is `(write - read) mod C` and lies in `[0, C)`. |
| `ControlLaw.Saturate` | ff_buffers_ElasticDelayBuffer.h:134-137 | Saturating first at 0.0001 and then at the maximum never exceeds the maximum. It is at least 0.0001 whenever the maximum is. It leaves a factor already inside the bounds unchanged. |
| `ControlLaw.ResamplingFactor` | ff_buffers_ElasticDelayBuffer.h:129-137 | The factor a pull applies is at most `maxResamplingFactor`, and at least 0.0001 whenever the maximum is. |
| `ControlLaw.SaturateIsClamp` | ff_buffers_ElasticDelayBuffer.h:134-137 | When the bounds are ordered, the two saturation steps are the clamp into `[0.0001, max]`. When the maximum is below 0.0001, the result is the maximum whatever the input. |
| `ControlLaw.EquilibriumIsUnity` | ff_buffers_ElasticDelayBuffer.h:129-137 | When `currentDelay - numSamples == delayTime` and the maximum is at least 1 (the default is 8), the factor is exactly 1. |
| `ControlLaw.CorrectionDirection` | ff_buffers_ElasticDelayBuffer.h:132-137 | For a positive block length, a positive error never gives a factor below 1 (if the maximum is at least 1). A negative error never gives a factor above 1. |
| `ControlLaw.FactorMonotone` | ff_buffers_ElasticDelayBuffer.h:132-137 | For a fixed positive block length and maximum, the saturated factor never decreases as the error grows. |
| `ControlLaw.UnsaturatedIsProportional` | ff_buffers_ElasticDelayBuffer.h:132-133 | Between the bounds, `(factor - 1) * numSamples * 8` equals the error exactly. |
| `ControlLaw.SaturatesHigh` | ff_buffers_ElasticDelayBuffer.h:136-137 | An error of at least `(max - 1) * numSamples * 8` gives exactly the maximum. |
| `ControlLaw.SaturatesLow` | ff_buffers_ElasticDelayBuffer.h:134-135 | An error of at most `(0.0001 - 1) * numSamples * 8` gives exactly 0.0001 (when the maximum admits it). |
| `ElasticDelayBuffer.Init` | ff_buffers_ElasticDelayBuffer.h:19-29 | A new buffer has no channels, no storage, both cursors at 0, delay 0 and factor bound 8.0, and it satisfies the invariant. |
| `ElasticDelayBuffer.UpdateActualSampleDelay` | ff_buffers_ElasticDelayBuffer.h:68-71 | Recomputing the delay restores the invariant of any state whose storage and cursors are in range. Nothing but the stored delay changes, and a state that already satisfies the invariant is left as it is. |
| `ElasticDelayBuffer.GetActualSampleDelay` | ff_buffers_ElasticDelayBuffer.h:63-71 | Under the invariant, the readout is the forward distance from the read cursor to the write cursor. |
| `ElasticDelayBuffer.ActualDelayReachesWrite` | ff_buffers_ElasticDelayBuffer.h:63-71 | While the read cursor is inside the ring, the readout lies in `[0, C]`. Advancing the read cursor by it reaches the write cursor modulo `C`. It equals `C` exactly when the write cursor is on `C` and the read cursor on 0. |
| `ElasticDelayBuffer.Reset` | ff_buffers_ElasticDelayBuffer.h:73-77 | Every resampler loses its history, the count is kept, and nothing else in the state changes. |
| `ElasticDelayBuffer.AdjustResamplers` | ff_buffers_ElasticDelayBuffer.h:34-39 | Adding fresh resamplers one at a time, or removing the last one, yields exactly `n` resamplers. The first `min(old, n)` are kept and the added ones are fresh. |
| `ElasticDelayBuffer.SetSize` | ff_buffers_ElasticDelayBuffer.h:31-48 | Channel count, capacity and resampler count become the requested ones, and the read cursor is untouched. If the write cursor does not fit, it becomes 0, all samples are 0 and all resamplers are reset. Otherwise the write cursor and the surviving resamplers are kept. The contents are kept when the dimensions are unchanged and silenced when they change. |
| `ElasticDelayBuffer.SetNumSamplesDelay` | ff_buffers_ElasticDelayBuffer.h:50-57 | For `delay < C` the write cursor and contents stay and every resampler is reset. The actual delay becomes `delay` (or `delay + C` for a negative delay). For `0 <= delay`, the read cursor stays in `[0, C)` when the write cursor is below `C`. When the write cursor is on `C`, the read cursor becomes exactly `C - delay`. For a negative delay, the read cursor becomes `write - delay`, unwrapped. |
| `ElasticDelayBuffer.SetNumSamplesDelayLeadsWrite` | ff_buffers_ElasticDelayBuffer.h:50-54 | After `setNumSamplesDelay(delay)` the read cursor is `delay` slots behind the write cursor modulo `C`, for negative delays too. |
| `ElasticDelayBuffer.SetMaxResamplingFactor` | ff_buffers_ElasticDelayBuffer.h:59-61 | Only the factor bound changes, and the invariant is kept. |
| `Ring.ScaledByUnity` | ff_buffers_ElasticDelayBuffer.h:79 | At the default gain of 1, the scaled run is the input run itself. |
| `Ring.MixIntoSilenceIsCopy` | ff_buffers_ElasticDelayBuffer.h:113-118 | Mixing a run into silent slots gives the same row as copying it there. |
| `ElasticDelayBuffer.PushChannelSplit` | ff_buffers_ElasticDelayBuffer.h:84-97 | Per slot, the split copy writes `[write, write + n)` when the block fits. Otherwise it writes `[write, C)` and then `[0, write + n - C)`, taking the matching input samples. |
| `ElasticDelayBuffer.PushChannelAt` | ff_buffers_ElasticDelayBuffer.h:84-97 | The split copy equals writing into an unbounded buffer viewed modulo `C`. Slot `j` is overwritten iff `(j - write) mod C < n`, and then it holds the input sample at that offset. |
| `ElasticDelayBuffer.PushBlock` | ff_buffers_ElasticDelayBuffer.h:79-100 | The write cursor becomes `write + n` if that is at most `C`, else `write + n - C`. It is congruent to `write + n` modulo `C`, and it equals `C` exactly when `write + n == C`. The read cursor and resamplers are unchanged and the invariant holds. |
| `ElasticDelayBuffer.PushBlockContents` | ff_buffers_ElasticDelayBuffer.h:84-97 | For every channel and every `k < n`, slot `(write + k) mod C` holds `gain * input[ch][k]`. Every slot outside those `n` is unchanged. |
| `ElasticDelayBuffer.AddChannelSplit` | ff_buffers_ElasticDelayBuffer.h:107-120 | Per slot, the split mix adds into `[p, p + n)` or into `[p, C)` plus `[0, p + n - C)`. Here `p` is the write cursor minus `n`, wrapped once. |
| `ElasticDelayBuffer.AddChannelAt` | ff_buffers_ElasticDelayBuffer.h:107-120 | Slot `j` is mixed into iff `(j - (write - n)) mod C < n`, and then it receives the input sample at that offset. |
| `ElasticDelayBuffer.AddToPushedBlock` | ff_buffers_ElasticDelayBuffer.h:102-121 | Only the samples change. Both cursors, the stored delay and the resamplers stay, and the invariant holds. |
| `ElasticDelayBuffer.AddToPushedSlot` | ff_buffers_ElasticDelayBuffer.h:107-120 | For every channel and slot `j`, let `d = (j - (write - n)) mod C`. If `d < n`, the slot gains `gain * input[ch][d]`. Otherwise it is unchanged. |
| `ElasticDelayBuffer.AddToPushedWindow` | ff_buffers_ElasticDelayBuffer.h:107-120 | For every channel and `k < n`, slot `(write - n + k) mod C` gains `gain * input[ch][k]`. |
| `ElasticDelayBuffer.AfterChannelLoop` | ff_buffers_ElasticDelayBuffer.h:139-146 | The loop over the channels, each overwriting the count, ends with the last channel's count. It ends with the initial count when there are no channels. |
| `ElasticDelayBuffer.LastReported` | ff_buffers_ElasticDelayBuffer.h:139-147 | The count a pull advances the read cursor by is the last channel's report, or 0 with no channels. |
| `ElasticDelayBuffer.PullBlock` | ff_buffers_ElasticDelayBuffer.h:123-150 | The read cursor becomes `(read + used) mod C`, which lies in `[0, C)`. Contents, write cursor and bound are unchanged. The factor is the control law applied to the stored actual delay, within `[0.0001, max]`. Every resampler has processed one more block. |
| `ElasticDelayBuffer.PushGrowsDelay` | ff_buffers_ElasticDelayBuffer.h:84-99 | A push of `n` samples lengthens the actual delay by `n` modulo `C`. |
| `Ring.ForwardDistanceAfterRead` | ff_buffers_ElasticDelayBuffer.h:147-149 | Advancing the read cursor by `u` and wrapping it shortens the forward distance by `u` modulo `C`, from any starting cursors. |
| `ElasticDelayBuffer.PullShrinksDelay` | ff_buffers_ElasticDelayBuffer.h:139-149 | A pull shortens the actual delay by the consumed count modulo `C`. |
| `ElasticDelayBuffer.PushThenPullBalances` | ff_buffers_ElasticDelayBuffer.h:79-150 | Pushing `n` samples and then consuming exactly `n` returns the actual delay to its value modulo `C`. |
| `ElasticDelayBuffer.RetargetThenPullIsUnity` | ff_buffers_ElasticDelayBuffer.h:50-57 | After retargeting to `d + n`, the next pull of `n` samples at target `d` runs at exactly factor 1. Every resampler then has processed only that one block since the reset. |
| `ElasticDelayBuffer.MaxFactorBoundsPull` | ff_buffers_ElasticDelayBuffer.h:59-61 | After `setMaxResamplingFactor(f)`, a pull's factor is at most `f`, and at least 0.0001 when `f` is. |
| `ElasticDelayBuffer.ShrinkStrandsReadCursor` | ff_buffers_ElasticDelayBuffer.h:40-47 | Size 8, then delay 3, then shrinking to 4 leaves the read cursor at 5, outside the ring, and the reported delay at -1. |
| `ElasticDelayBuffer.NegativeDelayStrandsReadCursor` | ff_buffers_ElasticDelayBuffer.h:50-57 | Size 4, then `setNumSamplesDelay(-10)`, puts the read cursor on 10, outside the ring, with reported delay -6. |
| `ElasticDelayBuffer.FullPushParksCursorsAtCapacity` | ff_buffers_ElasticDelayBuffer.h:84-89 | Two pushes of 2 into a ring of 4 leave the write cursor on 4. A following `setNumSamplesDelay(0)` puts the read cursor on 4 with delay 0. |
| `Trace.Step` | ff_buffers_ElasticDelayBuffer.h:31-150 | Every public call that changes the state, made within its guard (the entry assertions, plus `numSamples != 0` for a pull), keeps the invariant. This covers `setSize`, `setNumSamplesDelay`, `setMaxResamplingFactor`, `updateActualSampleDelay`, `reset`, `pushBlock`, `addToPushedBlock` and `pullBlock`. |
| `Trace.Run` | ff_buffers_ElasticDelayBuffer.h:31-150 | Across any sequence of calls, every state reached satisfies the invariant. A stopped run names a call whose guard fails in the state it stopped in. |
| `Trace.StoppedAtFirstFailure` | ff_buffers_ElasticDelayBuffer.h:31-150 | The call a run stops at is the first that breaks its guard. The calls before it form a run that completes, in exactly the state the run stopped in. |
| `Trace.EndingWithPullBoundsCursors` | ff_buffers_ElasticDelayBuffer.h:147-149 | Whatever came before, a run ending in a pull leaves the read cursor in `[0, C)` and the reported delay in `[0, C]`. |

## Left out

- `CircularLagrangeInterpolator::process` is not part of this model: its interpolation, history and phase are floating-point code in another file. Only the count it returns enters, as the input `used`. The output samples of a pull are not modelled.
- The convergence of the actual delay toward the target over many cycles is not modelled, because it depends on how many samples the interpolator consumes.
- IEEE double rounding is not modelled. The factor and the samples are exact reals.
- `PullBlock` requires `numSamples != 0`. For a zero block length `pullBlock` divides by zero and gets an infinity or NaN factor, which the real-valued model cannot express.
- 32-bit `int` overflow of the cursor and delay arithmetic is not modelled. Integers are unbounded.
- `std::atomic<int>` is not modelled: the delay is a plain field, and concurrent readers and writers are not modelled. Its initial value is taken as 0.
- JUCE `AudioBuffer` and `OwnedArray` are not part of this model. `setSize(numChannels, numSamples, false, true)` is assumed to keep the contents when the dimensions are unchanged and to zero them otherwise. The entry assertions of `copyFrom`/`addFrom` (non-negative counts, ranges inside the buffer) and of `setSize` (non-negative sizes) become preconditions. The range check of `getReadPointer`, which fails when the read cursor sits on or past `capacity`, is not modelled.
- The `sampleRate` argument of `setSize` is never read by it, so it has no effect in the model.
- `pullBlock`'s output channel count is asserted equal to the buffer's, so the model has one `used` count per buffer channel and no separate output channel count.
