/**
 Index arithmetic of a circular sample buffer: the forward distance between
 two cursors, the wrap of an index that overshoots the ring by less than one
 turn, and the two per-channel block primitives the buffer is built from
 (overwrite a run of slots with a scaled source run, or mix a scaled source
 run into it).
 */
module Ring {

  /** Audio samples are modelled as reals so that gain scaling is exact. */
  type Sample = real

  /** Circular distance forward from the `read` cursor to the `write` cursor in a
      ring of `capacity` slots, computed with a single conditional wrap. */
  function ForwardDistance(write: int, read: int, capacity: int): int
  {
    if write < read then write + capacity - read else write - read
  }

  /** An index less than one turn below or above the ring `[0, m)`, brought
      back into it with at most one correction. */
  function Wrap(x: int, m: int): (w: int)
    requires 0 < m && -m <= x < 2 * m
    ensures 0 <= w < m
  {
    if x < 0 then x + m else if x < m then x else x - m
  }

  /** The single correction is the Euclidean residue. */
  lemma WrapIsMod(x: int, m: int)
    requires 0 < m && -m <= x < 2 * m
    ensures Wrap(x, m) == x % m
  {
    ModNear(x, m);
  }

  /** An index that lies less than one turn below or above the ring wraps with
      at most one correction. */
  lemma ModNear(x: int, m: int)
    requires 0 < m && -m <= x < 2 * m
    ensures x % m == if x < 0 then x + m else if x < m then x else x - m
  {
    if x < 0 {
      assert x + m == m * ((x + m) / m) + (x + m) % m;
      ModInRange(x + m, m);
      ModShift(x, m);
    } else if x < m {
      ModInRange(x, m);
    } else {
      ModInRange(x - m, m);
      ModShift(x - m, m);
    }
  }

  lemma ModInRange(x: int, m: int)
    requires 0 <= x < m
    ensures x % m == x
  {
  }

  lemma ModShift(x: int, m: int)
    requires 0 < m
    ensures (x + m) % m == x % m
  {
    ModUnique(x + m, m, x / m + 1, x % m);
  }

  /** Euclidean division has one remainder: any decomposition
      `a == m * q + r` with `0 <= r < m` gives `a % m == r`. */
  lemma ModUnique(a: int, m: int, q: int, r: int)
    requires 0 < m && 0 <= r < m && a == m * q + r
    ensures a % m == r
  {
    var k := q - a / m;
    assert m * k == a % m - r;
  }

  /** Adding whole turns does not change the residue. */
  lemma ModAddTurns(x: int, q: int, m: int)
    requires 0 < m
    ensures (x + q * m) % m == x % m
  {
    ModUnique(x + q * m, m, x / m + q, x % m);
  }

  /** Advancing the read cursor by `u` and wrapping it shortens the forward
      distance to the write cursor by `u`, modulo one turn of the ring. */
  lemma ForwardDistanceAfterRead(write: int, read: int, u: int, capacity: int)
    requires 0 < capacity
    ensures ForwardDistance(write, (read + u) % capacity, capacity) % capacity
            == (ForwardDistance(write, read, capacity) - u) % capacity
  {
    var next := (read + u) % capacity;
    var turns := (read + u) / capacity;
    var before := if write < read then 1 else 0;
    var after := if write < next then 1 else 0;
    assert next == read + u - turns * capacity;
    assert ForwardDistance(write, next, capacity)
           == (ForwardDistance(write, read, capacity) - u) + (turns + after - before) * capacity;
    ModAddTurns(ForwardDistance(write, read, capacity) - u, turns + after - before, capacity);
  }

  /** Shifting two numbers with the same residue by the same amount keeps
      their residues equal. */
  lemma SameResidueShift(a: int, c: int, n: int, m: int)
    requires 0 < m && a % m == c % m
    ensures (a - n) % m == (c - n) % m
  {
    var k := a / m - c / m;
    assert a == c + k * m;
    ModAddTurns(c - n, k, m);
  }

  /** Advancing `read` by the forward distance lands on `write` (modulo the
      capacity), and the distance never exceeds one full turn. */
  lemma ForwardDistanceReachesWrite(write: int, read: int, capacity: int)
    requires 0 <= read < capacity && 0 <= write <= capacity
    ensures 0 <= ForwardDistance(write, read, capacity) <= capacity
    ensures (read + ForwardDistance(write, read, capacity)) % capacity == write % capacity
    ensures ForwardDistance(write, read, capacity) == capacity <==> write == capacity && read == 0
  {
    var d := ForwardDistance(write, read, capacity);
    if write < read {
      assert read + d == write + capacity;
      ModNear(write + capacity, capacity);
      ModNear(write, capacity);
    } else {
      assert read + d == write;
    }
  }

  /** With both cursors inside the ring the distance is the Euclidean residue
      of their difference, so it lies in `[0, capacity)`. */
  lemma ForwardDistanceIsResidue(write: int, read: int, capacity: int)
    requires 0 <= read < capacity && 0 <= write < capacity
    ensures ForwardDistance(write, read, capacity) == (write - read) % capacity
    ensures 0 <= ForwardDistance(write, read, capacity) < capacity
  {
    ModNear(write - read, capacity);
  }

  /** The source run scaled by `gain`, built sample by sample from the front:
      every sample is scaled, in place. */
  function Scaled(src: seq<Sample>, gain: Sample): (r: seq<Sample>)
    ensures |r| == |src|
    ensures forall i :: 0 <= i < |src| ==> r[i] == gain * src[i]
    decreases |src|
  {
    if |src| == 0 then [] else [gain * src[0]] + Scaled(src[1..], gain)
  }

  /** At the default gain of 1 the run is passed on unchanged. */
  lemma ScaledByUnity(src: seq<Sample>)
    ensures Scaled(src, 1.0) == src
  {
  }

  /** One channel of `AudioBuffer::copyFrom`: slots `[start, start + count)`
      of `row` receive the source run starting at `from`; every other slot
      keeps its value. The gain argument of `copyFrom` is applied to the run
      beforehand (`Scaled`). */
  function CopyFrom(row: seq<Sample>, start: int, src: seq<Sample>, from: int, count: int): (r: seq<Sample>)
    requires 0 <= start && 0 <= count && start + count <= |row|
    requires 0 <= from && from + count <= |src|
    ensures |r| == |row|
    ensures forall j :: 0 <= j < |row| ==>
              r[j] == if start <= j < start + count then src[from + j - start] else row[j]
  {
    row[..start] + src[from..from + count] + row[start + count..]
  }

  /** One channel of `AudioBuffer::addFrom`: slots `[start, start + count)`
      of `row` have the source run starting at `from` added to them; every
      other slot keeps its value. Built one sample at a time, last slot of the
      run first. */
  function AddFrom(row: seq<Sample>, start: int, src: seq<Sample>, from: int, count: int): (r: seq<Sample>)
    requires 0 <= start && 0 <= count && start + count <= |row|
    requires 0 <= from && from + count <= |src|
    ensures |r| == |row|
    ensures forall j :: 0 <= j < |row| ==>
              r[j] == if start <= j < start + count then row[j] + src[from + j - start] else row[j]
    decreases count
  {
    if count == 0 then row
    else
      var last := start + count - 1;
      AddFrom(row, start, src, from, count - 1)[last := row[last] + src[from + count - 1]]
  }

  /** Mixing into a silent row is the same as copying into it. */
  lemma MixIntoSilenceIsCopy(row: seq<Sample>, start: int, src: seq<Sample>, from: int, count: int)
    requires 0 <= start && 0 <= count && start + count <= |row|
    requires 0 <= from && from + count <= |src|
    requires forall j :: 0 <= j < |row| ==> row[j] == 0.0
    ensures AddFrom(row, start, src, from, count) == CopyFrom(row, start, src, from, count)
  {
  }

  /** A silent block of `channels` rows of `length` samples. */
  function Silence(channels: nat, length: nat): seq<seq<Sample>>
  {
    seq(channels, _ => seq(length, _ => 0.0))
  }
}
