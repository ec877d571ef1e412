/**
 The elastic delay buffer: a multichannel ring of `capacity` samples per
 channel with a write cursor and a read cursor, one fractional resampler per
 channel, the derived actual delay (forward distance from the read cursor to
 the write cursor) and the saturation bound of the resampling factor.

 The state is an immutable record and every public operation of the buffer
 is a pure transition. The resamplers' interpolation is not part of this
 model: a resampler is reduced to the number of blocks it has processed since
 its history was last discarded, and the number of source samples it reports
 as consumed during a pull is an input of the pull.
 */
module ElasticDelayBuffer {
  import opened Ring
  import opened ControlLaw

  /** What the buffer controls of one channel's resampler: how many blocks it
      has processed since it was constructed or last reset. */
  datatype Resampler = Resampler(blocksSinceReset: nat)

  /** A newly constructed or freshly reset resampler. */
  const FreshResampler: Resampler := Resampler(0)

  datatype DelayBuffer = DelayBuffer(
    samples: seq<seq<Sample>>,   // one row of `capacity` samples per channel
    capacity: int,               // samples per channel of the ring
    resamplers: seq<Resampler>,  // one per channel
    writePosition: int,
    readPosition: int,
    numDelaySamples: int,        // the actual delay, as last recomputed
    maxResamplingFactor: real)

  /** The state invariant every operation keeps. The write cursor may rest on
      `capacity` itself (a push that ends exactly at the end of the ring leaves
      it there), and the read cursor is only known to be non-negative: a resize
      never moves it. The stored delay always agrees with the cursors. */
  predicate Valid(b: DelayBuffer)
  {
    && WellShaped(b)
    && b.numDelaySamples == ForwardDistance(b.writePosition, b.readPosition, b.capacity)
  }

  /** The invariant without its last clause: the shape of the storage and the
      ranges of the cursors, whatever the stored delay. */
  predicate WellShaped(b: DelayBuffer)
  {
    && 0 <= b.capacity
    && (forall ch :: 0 <= ch < |b.samples| ==> |b.samples[ch]| == b.capacity)
    && |b.resamplers| == |b.samples|
    && 0 <= b.writePosition <= b.capacity
    && 0 <= b.readPosition
  }

  /** Every resampler has had its history discarded and processed nothing since. */
  predicate AllFresh(rs: seq<Resampler>)
  {
    forall i :: 0 <= i < |rs| ==> rs[i].blocksSinceReset == 0
  }

  /** Slot `j` of a ring of `capacity` slots lies `Offset(j, start, capacity)`
      slots forward of `start`, for a `start` less than a turn away; this is
      `(j - start) % capacity` (see `OffsetIsResidue`). */
  function Offset(j: int, start: int, capacity: int): int
    requires 0 < capacity && -capacity <= j - start < 2 * capacity
  {
    Wrap(j - start, capacity)
  }

  // ---------------------------------------------------------------- lifecycle

  /** A freshly constructed buffer: no channels, no storage, both cursors at 0,
      the default factor bound. */
  function Init(): (b: DelayBuffer)
    ensures Valid(b)
    ensures |b.samples| == 0 && b.capacity == 0
    ensures b.writePosition == 0 && b.readPosition == 0 && b.numDelaySamples == 0
    ensures b.maxResamplingFactor == DefaultMaxFactor
  {
    DelayBuffer([], 0, [], 0, 0, 0, DefaultMaxFactor)
  }

  /** `updateActualSampleDelay`: recomputes the stored delay from the cursors.
      It restores the invariant of any well-shaped state, touches nothing but
      the stored delay, and changes nothing in a state that already satisfies
      the invariant. */
  function UpdateActualSampleDelay(b: DelayBuffer): (r: DelayBuffer)
    ensures WellShaped(b) ==> Valid(r)
    ensures r == b.(numDelaySamples := r.numDelaySamples)
    ensures Valid(b) ==> r == b
  {
    b.(numDelaySamples := ForwardDistance(b.writePosition, b.readPosition, b.capacity))
  }

  /** `getActualSampleDelay`: the actual delay as last recomputed, which under
      the invariant is the forward distance between the cursors. */
  function GetActualSampleDelay(b: DelayBuffer): (d: int)
    ensures Valid(b) ==> d == ForwardDistance(b.writePosition, b.readPosition, b.capacity)
  {
    b.numDelaySamples
  }

  /** While the read cursor is inside the ring, the reported delay lies in
      `[0, capacity]`, advancing the read cursor by it reaches the write cursor
      modulo the capacity, and it is a full turn exactly when the write cursor
      rests on `capacity` and the read cursor on 0. */
  lemma ActualDelayReachesWrite(b: DelayBuffer)
    requires Valid(b) && b.readPosition < b.capacity
    ensures 0 <= GetActualSampleDelay(b) <= b.capacity
    ensures (b.readPosition + GetActualSampleDelay(b)) % b.capacity == b.writePosition % b.capacity
    ensures GetActualSampleDelay(b) == b.capacity <==> b.writePosition == b.capacity && b.readPosition == 0
  {
    ForwardDistanceReachesWrite(b.writePosition, b.readPosition, b.capacity);
  }

  /** Discards the history of every resampler. */
  function ResetAll(rs: seq<Resampler>): (r: seq<Resampler>)
    ensures |r| == |rs| && AllFresh(r)
    decreases |rs|
  {
    if |rs| == 0 then [] else [FreshResampler] + ResetAll(rs[1..])
  }


  /** `reset`: every resampler loses its history; nothing else changes. */
  function Reset(b: DelayBuffer): (r: DelayBuffer)
    ensures Valid(b) ==> Valid(r)
    ensures |r.resamplers| == |b.resamplers| && AllFresh(r.resamplers)
    ensures r == b.(resamplers := r.resamplers)
  {
    b.(resamplers := ResetAll(b.resamplers))
  }

  /** Grows the resampler set one fresh resampler at a time, or shrinks it by
      dropping the last one, until it has `n` members. */
  function AdjustResamplers(rs: seq<Resampler>, n: nat): (r: seq<Resampler>)
    ensures |r| == n
    ensures forall i :: 0 <= i < n && i < |rs| ==> r[i] == rs[i]
    ensures forall i :: |rs| <= i < n ==> r[i] == FreshResampler
    decreases if |rs| < n then n - |rs| else |rs| - n
  {
    if |rs| < n then AdjustResamplers(rs + [FreshResampler], n)
    else if |rs| > n then AdjustResamplers(rs[..|rs| - 1], n)
    else rs
  }

  /** Storage after `AudioBuffer::setSize` without keeping content and with
      clearing: unchanged when the dimensions are unchanged, silent otherwise. */
  function Resized(samples: seq<seq<Sample>>, capacity: int, numChannels: nat, numSamples: nat): seq<seq<Sample>>
  {
    if numChannels == |samples| && numSamples == capacity then samples
    else Silence(numChannels, numSamples)
  }

  /** `setSize`: re-dimensions the ring and the resampler set. When the write
      cursor no longer fits, it returns to 0, the ring is silenced and every
      resampler is reset. The read cursor is never touched; the sample rate is
      not used. */
  function SetSize(b: DelayBuffer, numChannels: int, numSamples: int, sampleRate: real): (r: DelayBuffer)
    requires Valid(b)
    requires 0 <= numChannels && 0 <= numSamples
    ensures Valid(r)
    ensures |r.samples| == numChannels && r.capacity == numSamples
    ensures |r.resamplers| == numChannels
    ensures r.readPosition == b.readPosition
    ensures r.maxResamplingFactor == b.maxResamplingFactor
    ensures b.writePosition >= numSamples ==>
              && r.writePosition == 0
              && AllFresh(r.resamplers)
              && (forall ch, j :: 0 <= ch < numChannels && 0 <= j < numSamples ==> r.samples[ch][j] == 0.0)
    ensures b.writePosition < numSamples ==>
              && r.writePosition == b.writePosition
              && (forall i :: 0 <= i < numChannels && i < |b.resamplers| ==> r.resamplers[i] == b.resamplers[i])
              && (forall i :: |b.resamplers| <= i < numChannels ==> r.resamplers[i] == FreshResampler)
              && (numChannels == |b.samples| && numSamples == b.capacity ==> r.samples == b.samples)
              && (numChannels != |b.samples| || numSamples != b.capacity ==>
                    forall ch, j :: 0 <= ch < numChannels && 0 <= j < numSamples ==> r.samples[ch][j] == 0.0)
  {
    var resized := b.(samples := Resized(b.samples, b.capacity, numChannels, numSamples),
                      capacity := numSamples,
                      resamplers := AdjustResamplers(b.resamplers, numChannels));
    var cleared :=
      if resized.writePosition >= numSamples then
        resized.(writePosition := 0,
                 samples := Silence(numChannels, numSamples),
                 resamplers := ResetAll(resized.resamplers))
      else resized;
    UpdateActualSampleDelay(cleared)
  }

  /** `setNumSamplesDelay`: puts the read cursor `delay` slots behind the write
      cursor (wrapping once below zero) and resets every resampler. */
  function SetNumSamplesDelay(b: DelayBuffer, delay: int): (r: DelayBuffer)
    requires Valid(b)
    requires delay < b.capacity
    ensures Valid(r)
    ensures r.samples == b.samples && r.capacity == b.capacity
    ensures r.writePosition == b.writePosition
    ensures r.maxResamplingFactor == b.maxResamplingFactor
    ensures |r.resamplers| == |b.resamplers| && AllFresh(r.resamplers)
    ensures r.numDelaySamples == if delay >= 0 then delay else delay + b.capacity
    ensures 0 <= delay && b.writePosition < b.capacity ==> r.readPosition < b.capacity
    ensures 0 <= delay && b.writePosition == b.capacity ==> r.readPosition == b.capacity - delay
    ensures delay < 0 ==> r.readPosition == b.writePosition - delay
  {
    var assumedRead := b.writePosition - delay;
    var read := if assumedRead < 0 then assumedRead + b.capacity else assumedRead;
    UpdateActualSampleDelay(Reset(b.(readPosition := read)))
  }

  /** After `setNumSamplesDelay(delay)` the read cursor lies `delay` slots
      behind the write cursor, modulo the capacity. */
  lemma SetNumSamplesDelayLeadsWrite(b: DelayBuffer, delay: int)
    requires Valid(b) && delay < b.capacity && 0 < b.capacity
    ensures (SetNumSamplesDelay(b, delay).readPosition + delay) % b.capacity == b.writePosition % b.capacity
  {
    if b.writePosition - delay < 0 {
      ModShift(b.writePosition, b.capacity);
    }
  }

  /** `setMaxResamplingFactor`: replaces the saturation bound of later pulls. */
  function SetMaxResamplingFactor(b: DelayBuffer, factor: real): (r: DelayBuffer)
    ensures Valid(b) ==> Valid(r)
    ensures r.maxResamplingFactor == factor
    ensures r == b.(maxResamplingFactor := factor)
  {
    b.(maxResamplingFactor := factor)
  }

  // --------------------------------------------------------------------- push

  /** The forward distance between slots is the Euclidean residue of their difference. */
  lemma OffsetIsResidue(j: int, start: int, capacity: int)
    requires 0 < capacity && -capacity <= j - start < 2 * capacity
    ensures Offset(j, start, capacity) == (j - start) % capacity
  {
    WrapIsMod(j - start, capacity);
  }

  /** The slot of the ring that the `k`-th sample of a block starting at
      `start` occupies: `(start + k) % capacity` (see `SlotIsResidue`). */
  function Slot(start: int, k: int, capacity: int): int
    requires 0 < capacity && -capacity <= start + k < 2 * capacity
  {
    Wrap(start + k, capacity)
  }

  lemma SlotIsResidue(start: int, k: int, capacity: int)
    requires 0 < capacity && -capacity <= start + k < 2 * capacity
    ensures Slot(start, k, capacity) == (start + k) % capacity
  {
    WrapIsMod(start + k, capacity);
  }

  /** Where slot `start + k` of an unbounded buffer lands in the ring, `k` is
      exactly the distance of that slot forward of `start`. */
  lemma SlotOffset(start: int, k: int, capacity: int)
    requires 0 <= k < capacity && -capacity <= start <= capacity
    ensures 0 <= Slot(start, k, capacity) < capacity
    ensures Offset(Slot(start, k, capacity), start, capacity) == k
  {
  }

  /** One channel of `pushBlock`: overwrite `n` slots from `write` with the
      (already scaled) input run `src`, split in two copies when the block runs past the end of
      the ring. */
  function PushChannel(row: seq<Sample>, write: int, src: seq<Sample>, n: int): (r: seq<Sample>)
    requires 0 <= n < |row| && 0 <= write <= |row| && n <= |src|
    ensures |r| == |row|
  {
    var available := |row| - (write + n);
    if available >= 0 then
      CopyFrom(row, write, src, 0, n)
    else
      CopyFrom(CopyFrom(row, write, src, 0, n + available), 0, src, n + available, -available)
  }

  /** Slot by slot, the split copy writes `[write, write + n)` when the block
      fits, and otherwise `[write, capacity)` followed by `[0, write + n - capacity)`. */
  lemma PushChannelSplit(row: seq<Sample>, write: int, src: seq<Sample>, n: int, j: int)
    requires 0 <= n < |row| && 0 <= write <= |row| && n <= |src|
    requires 0 <= j < |row|
    ensures PushChannel(row, write, src, n)[j] ==
              if write <= j < write + n then src[j - write]
              else if j < write + n - |row| then src[j - write + |row|]
              else row[j]
  {
    var available := |row| - (write + n);
    var r := PushChannel(row, write, src, n);
    if available >= 0 {
      assert r == CopyFrom(row, write, src, 0, n);
    } else {
      var first := CopyFrom(row, write, src, 0, n + available);
      assert r == CopyFrom(first, 0, src, n + available, -available);
      assert first[j] == if write <= j < |row| then src[j - write] else row[j];
    }
  }

  /** The split copy agrees, slot by slot, with writing the block into an
      unbounded buffer and viewing it through modular indexing: slot `j` is
      written iff it lies fewer than `n` slots forward of `write`, and then it
      holds the input sample at that distance. */
  lemma PushChannelAt(row: seq<Sample>, write: int, src: seq<Sample>, n: int, j: int)
    requires 0 <= n < |row| && 0 <= write <= |row| && n <= |src|
    requires 0 <= j < |row|
    ensures PushChannel(row, write, src, n)[j] ==
              if Offset(j, write, |row|) < n then src[Offset(j, write, |row|)] else row[j]
  {
    PushChannelSplit(row, write, src, n, j);
  }

  /** The `k`-th slot from the write cursor receives the `k`-th sample of the run. */
  lemma PushChannelWindow(row: seq<Sample>, write: int, src: seq<Sample>, n: int, k: int)
    requires 0 <= n < |row| && 0 <= write <= |row| && n <= |src|
    requires 0 <= k < n
    ensures 0 <= Slot(write, k, |row|) < |row|
    ensures PushChannel(row, write, src, n)[Slot(write, k, |row|)] == src[k]
  {
    SlotOffset(write, k, |row|);
    PushChannelAt(row, write, src, n, Slot(write, k, |row|));
  }

  /** `pushBlock`: overwrites `numSamples` samples per channel at the write
      cursor with `gain` times the input and advances the write cursor by
      `numSamples`, wrapping once past the end of the ring; the cursor rests on
      `capacity` exactly when the block ends at the end of the ring. */
  function PushBlock(b: DelayBuffer, input: seq<seq<Sample>>, numSamples: int, gain: Sample): (r: DelayBuffer)
    requires Valid(b)
    requires 0 <= numSamples < b.capacity
    requires |input| == |b.samples|
    requires forall ch :: 0 <= ch < |input| ==> numSamples <= |input[ch]|
    ensures Valid(r)
    ensures |r.samples| == |b.samples| && r.capacity == b.capacity
    ensures r.resamplers == b.resamplers && r.readPosition == b.readPosition
    ensures r.maxResamplingFactor == b.maxResamplingFactor
    ensures r.writePosition == if b.writePosition + numSamples <= b.capacity then b.writePosition + numSamples
                               else b.writePosition + numSamples - b.capacity
    ensures r.writePosition % b.capacity == (b.writePosition + numSamples) % b.capacity
    ensures r.writePosition == b.capacity <==> b.writePosition + numSamples == b.capacity
  {
    var available := b.capacity - (b.writePosition + numSamples);
    var rows := seq(|b.samples|, ch requires 0 <= ch < |b.samples| =>
                      PushChannel(b.samples[ch], b.writePosition, Scaled(input[ch], gain), numSamples));
    var write := if available >= 0 then b.writePosition + numSamples else -available;
    ModNear(b.writePosition + numSamples, b.capacity);
    ModNear(write, b.capacity);
    UpdateActualSampleDelay(b.(samples := rows, writePosition := write))
  }

  /** What `pushBlock` leaves in the ring: the `k`-th input sample, scaled, in
      the `k`-th slot from the old write cursor (modulo the capacity), and
      every slot outside those `numSamples` untouched. */
  lemma PushBlockContents(b: DelayBuffer, input: seq<seq<Sample>>, numSamples: int, gain: Sample)
    requires Valid(b)
    requires 0 <= numSamples < b.capacity
    requires |input| == |b.samples|
    requires forall ch :: 0 <= ch < |input| ==> numSamples <= |input[ch]|
    ensures var r := PushBlock(b, input, numSamples, gain).samples;
            forall ch, k :: 0 <= ch < |b.samples| && 0 <= k < numSamples ==>
              r[ch][Slot(b.writePosition, k, b.capacity)] == gain * input[ch][k]
    ensures var r := PushBlock(b, input, numSamples, gain).samples;
            forall ch, j :: 0 <= ch < |b.samples| && 0 <= j < b.capacity && numSamples <= Offset(j, b.writePosition, b.capacity) ==>
              r[ch][j] == b.samples[ch][j]
  {
    var r := PushBlock(b, input, numSamples, gain).samples;
    forall ch, k | 0 <= ch < |b.samples| && 0 <= k < numSamples
      ensures r[ch][Slot(b.writePosition, k, b.capacity)] == gain * input[ch][k]
    {
      assert r[ch] == PushChannel(b.samples[ch], b.writePosition, Scaled(input[ch], gain), numSamples);
      PushChannelWindow(b.samples[ch], b.writePosition, Scaled(input[ch], gain), numSamples, k);
    }
    forall ch, j | 0 <= ch < |b.samples| && 0 <= j < b.capacity && numSamples <= Offset(j, b.writePosition, b.capacity)
      ensures r[ch][j] == b.samples[ch][j]
    {
      assert r[ch] == PushChannel(b.samples[ch], b.writePosition, Scaled(input[ch], gain), numSamples);
      PushChannelAt(b.samples[ch], b.writePosition, Scaled(input[ch], gain), numSamples, j);
    }
  }

  /** Where the block ending at `write` started: `n` slots back, wrapping
      once below zero. */
  function PreviousWrite(write: int, n: int, capacity: int): int
  {
    if write - n < 0 then write - n + capacity else write - n
  }

  /** One channel of `addToPushedBlock`: mix `n` samples of the (already
      scaled) input run `src` into the
      `n` slots that end at `write`, split in two when they straddle the end of
      the ring. */
  function AddChannel(row: seq<Sample>, write: int, src: seq<Sample>, n: int): (r: seq<Sample>)
    requires 0 <= n < |row| && 0 <= write <= |row| && n <= |src|
    ensures |r| == |row|
  {
    var previousWrite := PreviousWrite(write, n, |row|);
    var available := |row| - (previousWrite + n);
    if available >= 0 then
      AddFrom(row, previousWrite, src, 0, n)
    else
      AddFrom(AddFrom(row, previousWrite, src, 0, n + available), 0, src, n + available, -available)
  }

  /** Slot by slot, the split mix touches `[p, p + n)` when the window fits
      below the end of the ring, and otherwise `[p, capacity)` followed by
      `[0, p + n - capacity)`, where `p` is the wrapped start of the window. */
  lemma AddChannelSplit(row: seq<Sample>, write: int, src: seq<Sample>, n: int, j: int)
    requires 0 <= n < |row| && 0 <= write <= |row| && n <= |src|
    requires 0 <= j < |row|
    ensures var p := PreviousWrite(write, n, |row|);
            AddChannel(row, write, src, n)[j] ==
              if p <= j < p + n then row[j] + src[j - p]
              else if j < p + n - |row| then row[j] + src[j - p + |row|]
              else row[j]
  {
    var capacity := |row|;
    var p := PreviousWrite(write, n, capacity);
    var available := capacity - (p + n);
    var r := AddChannel(row, write, src, n);
    if available >= 0 {
      assert r == AddFrom(row, p, src, 0, n);
    } else {
      var first := AddFrom(row, p, src, 0, n + available);
      assert r == AddFrom(first, 0, src, n + available, -available);
      assert first[j] == if p <= j < capacity then row[j] + src[j - p] else row[j];
    }
  }

  /** Slot `j` is mixed into iff it lies fewer than `n` slots forward of
      `write - n`, and then it receives the input sample at that distance. */
  lemma AddChannelAt(row: seq<Sample>, write: int, src: seq<Sample>, n: int, j: int)
    requires 0 <= n < |row| && 0 <= write <= |row| && n <= |src|
    requires 0 <= j < |row|
    ensures AddChannel(row, write, src, n)[j] ==
              if Offset(j, write - n, |row|) < n then row[j] + src[Offset(j, write - n, |row|)] else row[j]
  {
    AddChannelSplit(row, write, src, n, j);
    SplitIsOffset(row, write, src, n, j);
  }

  /** The two-part description of the window and the description by forward
      offset from `write - n` pick the same input sample for every slot. */
  lemma SplitIsOffset(row: seq<Sample>, write: int, src: seq<Sample>, n: int, j: int)
    requires 0 <= n < |row| && 0 <= write <= |row| && n <= |src|
    requires 0 <= j < |row|
    ensures var p := PreviousWrite(write, n, |row|);
            (if p <= j < p + n then row[j] + src[j - p]
             else if j < p + n - |row| then row[j] + src[j - p + |row|]
             else row[j])
            == if Offset(j, write - n, |row|) < n then row[j] + src[Offset(j, write - n, |row|)] else row[j]
  {
    var p := PreviousWrite(write, n, |row|);
    var d := Offset(j, write - n, |row|);
    PreviousWriteOffset(write, n, |row|, j);
    if p <= j < p + n {
      assert d == j - p;
    } else if j < p + n - |row| {
      assert d == j - p + |row|;
    } else {
      assert n <= d;
    }
  }

  /** Where slot `j` lies relative to the wrapped window start `p`: inside the
      unwrapped part, inside the part past the end of the ring, or at least
      `n` slots forward of `write - n`. */
  lemma PreviousWriteOffset(write: int, n: int, capacity: int, j: int)
    requires 0 <= n < capacity && 0 <= write <= capacity && 0 <= j < capacity
    ensures var p := PreviousWrite(write, n, capacity);
            var d := Offset(j, write - n, capacity);
            && (p <= j < p + n ==> d == j - p)
            && (j < p + n - capacity ==> d == j - p + capacity)
            && (!(p <= j < p + n) && !(j < p + n - capacity) ==> n <= d)
  {
  }

  /** The `k`-th slot of the window has the `k`-th sample of the run added to it. */
  lemma AddChannelWindow(row: seq<Sample>, write: int, src: seq<Sample>, n: int, k: int)
    requires 0 <= n < |row| && 0 <= write <= |row| && n <= |src|
    requires 0 <= k < n
    ensures 0 <= Slot(write - n, k, |row|) < |row|
    ensures var j := Slot(write - n, k, |row|);
            AddChannel(row, write, src, n)[j] == row[j] + src[k]
  {
    var j := Slot(write - n, k, |row|);
    SlotOffset(write - n, k, |row|);
    assert Offset(j, write - n, |row|) == k;
    AddChannelAt(row, write, src, n, j);
  }

  /** `addToPushedBlock`: mixes `gain` times the input into the `numSamples`
      slots just before the write cursor. No cursor moves and the stored delay
      is not recomputed (it still agrees with the cursors). */
  function AddToPushedBlock(b: DelayBuffer, input: seq<seq<Sample>>, numSamples: int, gain: Sample): (r: DelayBuffer)
    requires Valid(b)
    requires 0 <= numSamples < b.capacity
    requires |input| == |b.samples|
    requires forall ch :: 0 <= ch < |input| ==> numSamples <= |input[ch]|
    ensures Valid(r)
    ensures r == b.(samples := r.samples)
    ensures |r.samples| == |b.samples|
  {
    b.(samples := seq(|b.samples|, ch requires 0 <= ch < |b.samples| =>
                        AddChannel(b.samples[ch], b.writePosition, Scaled(input[ch], gain), numSamples)))
  }

  /** What `addToPushedBlock` leaves in slot `j` of channel `ch`: when the
      slot is the `d`-th of the window of `numSamples` slots ending at the
      write cursor, it has the `d`-th input sample, scaled, added to it;
      otherwise it is untouched. */
  lemma AddToPushedSlot(b: DelayBuffer, input: seq<seq<Sample>>, numSamples: int, gain: Sample, ch: int, j: int)
    requires Valid(b)
    requires 0 <= numSamples < b.capacity
    requires |input| == |b.samples|
    requires forall ch :: 0 <= ch < |input| ==> numSamples <= |input[ch]|
    requires 0 <= ch < |b.samples| && 0 <= j < b.capacity
    ensures var d := Offset(j, b.writePosition - numSamples, b.capacity);
            AddToPushedBlock(b, input, numSamples, gain).samples[ch][j]
              == if d < numSamples then b.samples[ch][j] + gain * input[ch][d] else b.samples[ch][j]
  {
    var r := AddToPushedBlock(b, input, numSamples, gain).samples;
    assert r[ch] == AddChannel(b.samples[ch], b.writePosition, Scaled(input[ch], gain), numSamples);
    AddChannelAt(b.samples[ch], b.writePosition, Scaled(input[ch], gain), numSamples, j);
  }

  /** The `k`-th input sample of channel `ch`, scaled, is mixed into slot
      `(write - numSamples + k) mod capacity`. */
  lemma AddToPushedWindow(b: DelayBuffer, input: seq<seq<Sample>>, numSamples: int, gain: Sample, ch: int, k: int)
    requires Valid(b)
    requires 0 <= numSamples < b.capacity
    requires |input| == |b.samples|
    requires forall ch :: 0 <= ch < |input| ==> numSamples <= |input[ch]|
    requires 0 <= ch < |b.samples| && 0 <= k < numSamples
    ensures 0 <= Slot(b.writePosition - numSamples, k, b.capacity) < b.capacity
    ensures var j := Slot(b.writePosition - numSamples, k, b.capacity);
            AddToPushedBlock(b, input, numSamples, gain).samples[ch][j] == b.samples[ch][j] + gain * input[ch][k]
  {
    var r := AddToPushedBlock(b, input, numSamples, gain).samples;
    assert r[ch] == AddChannel(b.samples[ch], b.writePosition, Scaled(input[ch], gain), numSamples);
    AddChannelWindow(b.samples[ch], b.writePosition, Scaled(input[ch], gain), numSamples, k);
  }

  // --------------------------------------------------------------------- pull

  /** What a pull hands to its caller besides the new state: the resampling
      factor every channel's resampler was driven with. */
  datatype PullResult = PullResult(buffer: DelayBuffer, factor: real)

  /** The count the channel loop of `ElasticDelayBuffer::pullBlock` leaves
      behind: it starts at `init` and every channel, in order, overwrites it
      with the count its resampler reports. */
  function AfterChannelLoop(init: nat, used: seq<nat>): (u: nat)
    ensures |used| > 0 ==> u == used[|used| - 1]
    ensures |used| == 0 ==> u == init
    decreases |used|
  {
    if |used| == 0 then init else AfterChannelLoop(used[0], used[1..])
  }

  /** The count a pull advances the read cursor by: the last channel's
      report, or 0 when there are no channels. */
  function LastReported(used: seq<nat>): (u: nat)
    ensures |used| > 0 ==> u == used[|used| - 1]
    ensures |used| == 0 ==> u == 0
  {
    AfterChannelLoop(0, used)
  }

  /** A resampler after processing one more block. */
  function Processed(rs: seq<Resampler>): (r: seq<Resampler>)
    ensures |r| == |rs|
    ensures forall i :: 0 <= i < |rs| ==> r[i].blocksSinceReset == rs[i].blocksSinceReset + 1
    decreases |rs|
  {
    if |rs| == 0 then [] else [Resampler(rs[0].blocksSinceReset + 1)] + Processed(rs[1..])
  }


  /** `pullBlock`: measures the delay, derives the saturated resampling factor
      from the control law, drives every channel's resampler with it and
      advances the read cursor by the source samples consumed, as reported by
      the resamplers (`used`, one count per channel). `outputLength` is the
      length of the output buffer, which is what the capacity is checked
      against; the requested block length `numSamples` is not. */
  function PullBlock(b: DelayBuffer, outputLength: nat, numSamples: int, delayTime: int, used: seq<nat>): (r: PullResult)
    requires Valid(b)
    requires outputLength < b.capacity
    requires |used| == |b.samples|
    requires numSamples != 0
    ensures Valid(r.buffer)
    ensures r.buffer.samples == b.samples && r.buffer.capacity == b.capacity
    ensures r.buffer.writePosition == b.writePosition
    ensures r.buffer.maxResamplingFactor == b.maxResamplingFactor
    ensures 0 <= r.buffer.readPosition < b.capacity
    ensures r.buffer.readPosition == (b.readPosition + LastReported(used)) % b.capacity
    ensures r.factor == ResamplingFactor(b.numDelaySamples, numSamples, delayTime, b.maxResamplingFactor)
    ensures r.factor <= b.maxResamplingFactor
    ensures MinFactor <= b.maxResamplingFactor ==> MinFactor <= r.factor
    ensures |r.buffer.resamplers| == |b.resamplers|
    ensures forall i :: 0 <= i < |b.resamplers| ==>
              r.buffer.resamplers[i].blocksSinceReset == b.resamplers[i].blocksSinceReset + 1
  {
    var difference := b.writePosition - b.readPosition;
    var currentDelay := if difference < 0 then difference + b.capacity else difference;
    var factor := ResamplingFactor(currentDelay, numSamples, delayTime, b.maxResamplingFactor);
    var read := (b.readPosition + LastReported(used)) % b.capacity;
    PullResult(UpdateActualSampleDelay(b.(resamplers := Processed(b.resamplers), readPosition := read)), factor)
  }

  // ------------------------------------------------------- delay accounting

  /** A push lengthens the actual delay by the block length, modulo one turn
      of the ring. */
  lemma PushGrowsDelay(b: DelayBuffer, input: seq<seq<Sample>>, numSamples: int, gain: Sample)
    requires Valid(b)
    requires 0 <= numSamples < b.capacity
    requires |input| == |b.samples|
    requires forall ch :: 0 <= ch < |input| ==> numSamples <= |input[ch]|
    ensures PushBlock(b, input, numSamples, gain).numDelaySamples % b.capacity
            == (b.numDelaySamples + numSamples) % b.capacity
  {
    var r := PushBlock(b, input, numSamples, gain);
    var capacity := b.capacity;
    var before := if b.writePosition < b.readPosition then 1 else 0;
    var after := if r.writePosition < r.readPosition then 1 else 0;
    var wrapped := if b.writePosition + numSamples <= capacity then 0 else 1;
    assert b.numDelaySamples == b.writePosition - b.readPosition + before * capacity;
    assert r.numDelaySamples == r.writePosition - b.readPosition + after * capacity;
    assert r.writePosition == b.writePosition + numSamples - wrapped * capacity;
    assert r.numDelaySamples == (b.numDelaySamples + numSamples) + (after - before - wrapped) * capacity;
    ModAddTurns(b.numDelaySamples + numSamples, after - before - wrapped, capacity);
  }

  /** A pull shortens the actual delay by the source samples consumed, modulo
      one turn of the ring. */
  lemma PullShrinksDelay(b: DelayBuffer, outputLength: nat, numSamples: int, delayTime: int, used: seq<nat>)
    requires Valid(b)
    requires outputLength < b.capacity
    requires |used| == |b.samples|
    requires numSamples != 0
    ensures PullBlock(b, outputLength, numSamples, delayTime, used).buffer.numDelaySamples % b.capacity
            == (b.numDelaySamples - LastReported(used)) % b.capacity
  {
    ForwardDistanceAfterRead(b.writePosition, b.readPosition, LastReported(used), b.capacity);
  }

  /** Consuming exactly what was pushed returns the actual delay to where it
      was, modulo one turn of the ring. */
  lemma PushThenPullBalances(b: DelayBuffer, input: seq<seq<Sample>>, numSamples: int, gain: Sample,
                             outputLength: nat, pullSamples: int, delayTime: int, used: seq<nat>)
    requires Valid(b)
    requires 0 <= numSamples < b.capacity
    requires |input| == |b.samples|
    requires forall ch :: 0 <= ch < |input| ==> numSamples <= |input[ch]|
    requires outputLength < b.capacity
    requires |used| == |b.samples| && pullSamples != 0
    requires LastReported(used) == numSamples
    ensures var pushed := PushBlock(b, input, numSamples, gain);
            PullBlock(pushed, outputLength, pullSamples, delayTime, used).buffer.numDelaySamples % b.capacity
            == b.numDelaySamples % b.capacity
  {
    var pushed := PushBlock(b, input, numSamples, gain);
    var pulled := PullBlock(pushed, outputLength, pullSamples, delayTime, used).buffer;
    PushGrowsDelay(b, input, numSamples, gain);
    PullShrinksDelay(pushed, outputLength, pullSamples, delayTime, used);
    SameResidueShift(pushed.numDelaySamples, b.numDelaySamples + numSamples, numSamples, b.capacity);
  }

  /** Re-targeting to `delayTime + numSamples` and then pulling a block of
      `numSamples` at target `delayTime` is the equilibrium: the first block
      after the jump is read at exactly unit rate, by resamplers whose history
      holds that one block only. */
  lemma RetargetThenPullIsUnity(b: DelayBuffer, delayTime: int, numSamples: int, outputLength: nat, used: seq<nat>)
    requires Valid(b)
    requires 0 <= delayTime && 0 < numSamples && delayTime + numSamples < b.capacity
    requires outputLength < b.capacity
    requires |used| == |b.samples|
    requires 1.0 <= b.maxResamplingFactor
    ensures var retargeted := SetNumSamplesDelay(b, delayTime + numSamples);
            var pulled := PullBlock(retargeted, outputLength, numSamples, delayTime, used);
            && pulled.factor == 1.0
            && forall i :: 0 <= i < |pulled.buffer.resamplers| ==> pulled.buffer.resamplers[i].blocksSinceReset == 1
  {
    var retargeted := SetNumSamplesDelay(b, delayTime + numSamples);
    assert retargeted.numDelaySamples == delayTime + numSamples;
    EquilibriumIsUnity(retargeted.numDelaySamples, numSamples, delayTime, retargeted.maxResamplingFactor);
  }

  /** After `setMaxResamplingFactor(f)` every pull drives the resamplers with a
      factor of at most `f`, and of at least `MinFactor` when `f` admits it. */
  lemma MaxFactorBoundsPull(b: DelayBuffer, f: real, outputLength: nat, numSamples: int, delayTime: int, used: seq<nat>)
    requires Valid(b)
    requires outputLength < b.capacity
    requires |used| == |b.samples|
    requires numSamples != 0
    ensures var factor := PullBlock(SetMaxResamplingFactor(b, f), outputLength, numSamples, delayTime, used).factor;
            && factor <= f
            && (MinFactor <= f ==> MinFactor <= factor)
  {
  }

  // ------------------------------------------------ where the cursors escape

  /** Shrinking the ring below the read cursor leaves the read cursor outside
      the ring, and the reported delay negative: the resize checks only the
      write cursor. */
  lemma ShrinkStrandsReadCursor()
    ensures var sized := SetSize(Init(), 0, 8, 48000.0);
            var retargeted := SetNumSamplesDelay(sized, 3);
            var shrunk := SetSize(retargeted, 0, 4, 48000.0);
            && retargeted.readPosition == 5
            && shrunk.readPosition >= shrunk.capacity
            && GetActualSampleDelay(shrunk) == -1
  {
  }

  /** A negative delay is accepted and puts the read cursor ahead of the write
      cursor by its magnitude, unwrapped: past the ring when the magnitude
      exceeds the capacity, with a negative reported delay. */
  lemma NegativeDelayStrandsReadCursor()
    ensures var sized := SetSize(Init(), 0, 4, 48000.0);
            var retargeted := SetNumSamplesDelay(sized, -10);
            && retargeted.readPosition == 10
            && retargeted.readPosition >= retargeted.capacity
            && GetActualSampleDelay(retargeted) == -6
  {
  }

  /** A push that ends exactly at the end of the ring leaves the write cursor
      on `capacity`; re-targeting to a delay of 0 then puts the read cursor
      there too, one past the last slot, while the reported delay is 0. */
  lemma FullPushParksCursorsAtCapacity()
    ensures var sized := SetSize(Init(), 1, 4, 48000.0);
            var once := PushBlock(sized, [[1.0, 2.0]], 2, 1.0);
            var twice := PushBlock(once, [[3.0, 4.0]], 2, 1.0);
            var retargeted := SetNumSamplesDelay(twice, 0);
            && twice.writePosition == twice.capacity
            && retargeted.readPosition == retargeted.capacity
            && GetActualSampleDelay(retargeted) == 0
  {
  }
}
