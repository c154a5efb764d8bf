/**
  The sample allocator of mediastreamer2/src/dxfilter.cpp: samples laid out one after the
  other in the application's buffer, each behind its prefix and rounded up to the alignment.
 */
module SampleAllocator {
  import opened Arithmetic
  import opened Options

  /** What CBaseAllocator::Alloc answers: a failure, nothing changed (S_FALSE), or go ahead (S_OK). */
  datatype BaseAnswer = BaseFailed | Unchanged | GoAhead

  datatype Outcome = NoError | BaseError | OutOfMemory

  /** A media sample: where its data starts and how long it is. */
  datatype Sample = Sample(pointer: int, length: int)

  /** Size plus prefix, rounded up when an alignment above 1 leaves a remainder. */
  function AlignedSize(size: nat, prefix: nat, alignment: int): nat {
    var total := size + prefix;
    if alignment > 1 && total % alignment != 0 then total + (alignment - total % alignment) else total
  }

  /** It is the least multiple of the alignment that holds a prefix and its data. */
  lemma AlignedSizeIsLeast(size: nat, prefix: nat, alignment: nat, k: nat)
    requires alignment >= 1
    ensures AlignedSize(size, prefix, alignment) % alignment == 0
    ensures AlignedSize(size, prefix, alignment) >= size + prefix
    ensures k * alignment >= size + prefix ==> AlignedSize(size, prefix, alignment) <= k * alignment
  {
    var total := size + prefix;
    var q, r := total / alignment, total % alignment;
    assert total == q * alignment + r;
    if alignment > 1 && r != 0 {
      assert AlignedSize(size, prefix, alignment) == (q + 1) * alignment;
      MultipleOf(q + 1, alignment);
      if k * alignment >= total {
        if k <= q { MulMonotone(k, q, alignment); }
        MulMonotone(q + 1, if k <= q then q + 1 else k, alignment);
      }
    }
  }

  /** Sample `i` of a layout that starts at `buffer`. */
  function SampleAt(buffer: int, slot: nat, prefix: nat, size: nat, i: nat): Sample {
    Sample(buffer + i * slot + prefix, size)
  }

  lemma AlignedSizeHolds(size: nat, prefix: nat, alignment: int)
    ensures AlignedSize(size, prefix, alignment) >= size + prefix
    ensures alignment <= 1 ==> AlignedSize(size, prefix, alignment) == size + prefix
  {
  }

  /** The samples of a layout, the latest one first, as a free list that adds at its head keeps them. */
  ghost predicate LaidOut(freeList: seq<Sample>, buffer: int, slot: nat, prefix: nat, size: nat) {
    forall i :: 0 <= i < |freeList| ==> freeList[|freeList| - 1 - i] == SampleAt(buffer, slot, prefix, size, i)
  }

  lemma NextSlot(i: nat, slot: nat)
    ensures (i + 1) * slot == i * slot + slot
  {
  }

  lemma SampleIs(buffer: int, slot: nat, prefix: nat, size: nat, i: nat)
    ensures SampleAt(buffer, slot, prefix, size, i) == Sample(buffer + i * slot + prefix, size)
    ensures LaidOut([], buffer, slot, prefix, size)
  {
  }

  lemma LaidOutAdd(freeList: seq<Sample>, buffer: int, slot: nat, prefix: nat, size: nat)
    requires LaidOut(freeList, buffer, slot, prefix, size)
    ensures LaidOut([SampleAt(buffer, slot, prefix, size, |freeList|)] + freeList, buffer, slot, prefix, size)
  {
    var longer := [SampleAt(buffer, slot, prefix, size, |freeList|)] + freeList;
    forall i | 0 <= i < |longer| ensures longer[|longer| - 1 - i] == SampleAt(buffer, slot, prefix, size, i) {
      if i < |freeList| { assert longer[|longer| - 1 - i] == freeList[|freeList| - 1 - i]; }
    }
  }

  /** Slot `k` of a layout: the half-open range of addresses from `SlotStart(k)` to `SlotStart(k + 1)`. */
  function SlotStart(buffer: int, slot: nat, k: nat): int {
    buffer + k * slot
  }

  /** The sample has `size` bytes of data right behind its prefix at the start of slot `k`, one of the buffer's `n`. */
  predicate InSlot(x: Sample, buffer: int, slot: nat, prefix: nat, size: nat, k: nat, n: nat) {
    && k < n && x.length == size
    && buffer <= SlotStart(buffer, slot, k) == x.pointer - prefix
    && x.pointer + size <= SlotStart(buffer, slot, k + 1) <= buffer + n * slot
  }

  /** Every sample of the list, a single one too, has a slot of its own. */
  lemma SampleInSlot(freeList: seq<Sample>, buffer: int, size: nat, prefix: nat, alignment: int, i: nat)
    requires i < |freeList|
    requires LaidOut(freeList, buffer, AlignedSize(size, prefix, alignment), prefix, size)
    ensures InSlot(freeList[i], buffer, AlignedSize(size, prefix, alignment), prefix, size,
                   |freeList| - 1 - i, |freeList|)
  {
    var slot, k := AlignedSize(size, prefix, alignment), |freeList| - 1 - i;
    assert freeList[|freeList| - 1 - k] == SampleAt(buffer, slot, prefix, size, k);
    AlignedSizeHolds(size, prefix, alignment);
    NextSlot(k, slot);
    MulMonotone(k + 1, |freeList|, slot);
  }

  /** The slots of two samples, alignment padding included, do not meet. */
  lemma SlotsDisjoint(buffer: int, slot: nat, j: nat, k: nat)
    requires j < k
    ensures SlotStart(buffer, slot, j) <= SlotStart(buffer, slot, j + 1)
                                       <= SlotStart(buffer, slot, k) <= SlotStart(buffer, slot, k + 1)
  {
    NextSlot(j, slot);
    MulMonotone(j + 1, k, slot);
    NextSlot(k, slot);
  }

  /** For every size, prefix, alignment and number of samples, none and one included. */
  lemma SamplesDisjoint(freeList: seq<Sample>, buffer: int, size: nat, prefix: nat, alignment: int)
    requires LaidOut(freeList, buffer, AlignedSize(size, prefix, alignment), prefix, size)
    ensures forall i :: 0 <= i < |freeList| ==>
              InSlot(freeList[i], buffer, AlignedSize(size, prefix, alignment), prefix, size,
                     |freeList| - 1 - i, |freeList|)
    ensures forall i, j :: 0 <= i < j < |freeList| ==>
              freeList[j].pointer - prefix + AlignedSize(size, prefix, alignment) <= freeList[i].pointer - prefix
  {
    hide AlignedSize, LaidOut;
    var slot, n := AlignedSize(size, prefix, alignment), |freeList|;
    forall i | 0 <= i < n ensures InSlot(freeList[i], buffer, slot, prefix, size, n - 1 - i, n) {
      SampleInSlot(freeList, buffer, size, prefix, alignment, i);
    }
    forall i, j | 0 <= i < j < n ensures freeList[j].pointer - prefix + slot <= freeList[i].pointer - prefix {
      SampleInSlot(freeList, buffer, size, prefix, alignment, i);
      SampleInSlot(freeList, buffer, size, prefix, alignment, j);
      SlotsDisjoint(buffer, slot, n - 1 - j, n - 1 - i);
      NextSlot(n - 1 - j, slot);
    }
  }

  class Allocator {
    var size: nat
    var prefix: nat
    var alignment: int
    var count: int
    /** The buffer in use and the one the application gave to the pin. */
    var buffer: Option<int>
    var pinBuffer: Option<int>
    var made: nat
    var freeList: seq<Sample>
    var changed: bool

    /** No sample is handed out, so all of them are on the free list. */
    ghost predicate Valid()
      reads this
    {
      made == |freeList| && (buffer.None? ==> made == 0)
    }

    method ReallyFree()
      requires Valid()
      modifies `freeList, `made
      ensures Valid() && freeList == [] && made == 0
    {
      while freeList != []
        decreases |freeList|
      {
        freeList := freeList[1..];
      }
      made := 0;
    }

    method ComputeAlignedSize() returns (alignedSize: nat)
      ensures alignedSize == AlignedSize(size, prefix, alignment)
    {
      alignedSize := size + prefix;
      if alignment > 1 {
        var remainder := alignedSize % alignment;
        if remainder != 0 {
          alignedSize := alignedSize + (alignment - remainder);
        }
      }
    }

    /** The sample loop: `next` walks over the slots until the count is reached or memory runs out. */
    method MakeSamples(start: int, alignedSize: nat, memory: nat) returns (r: Outcome)
      requires Valid() && made == 0 && buffer.Some?
      modifies `freeList, `made
      ensures Valid() && LaidOut(freeList, start, alignedSize, prefix, size)
      ensures |freeList| == (if count <= 0 then 0 else if count <= memory then count else memory)
      ensures r == (if count <= memory then NoError else OutOfMemory)
    {
      hide SampleAt, LaidOut;
      var next := start;
      SampleIs(start, alignedSize, prefix, size, 0);
      while made < count
        invariant Valid() && made <= memory && (made == 0 || made <= count)
        invariant next == start + made * alignedSize
        invariant LaidOut(freeList, start, alignedSize, prefix, size)
      {
        if made == memory {
          return OutOfMemory;
        }
        LaidOutAdd(freeList, start, alignedSize, prefix, size);
        SampleIs(start, alignedSize, prefix, size, made);
        freeList := [Sample(next + prefix, size)] + freeList;
        NextSlot(made, alignedSize);
        made := made + 1;
        next := next + alignedSize;
      }
      return NoError;
    }

    /**
      `answer` is what the base class says and `memory` how many samples can still be created.
      Samples fill the buffer from its start, as many as asked for or as memory allows.
     */
    method Alloc(answer: BaseAnswer, memory: nat) returns (r: Outcome)
      requires Valid()
      modifies `buffer, `freeList, `made, `changed
      ensures Valid()
      ensures answer != GoAhead ==>
                && r == (if answer.BaseFailed? then BaseError else NoError)
                && buffer == old(buffer) && freeList == old(freeList) && changed == old(changed)
      ensures answer == GoAhead ==> buffer == pinBuffer
      ensures answer == GoAhead && pinBuffer.None? ==> r == OutOfMemory && freeList == [] && changed == old(changed)
      ensures answer == GoAhead && pinBuffer.Some? ==>
                && |freeList| == (if count <= 0 then 0 else if count <= memory then count else memory)
                && r == (if count <= memory then NoError else OutOfMemory)
                && changed == (old(changed) && r != NoError)
                && LaidOut(freeList, pinBuffer.value, AlignedSize(size, prefix, alignment), prefix, size)
    {
      hide AlignedSize, LaidOut;
      if answer.BaseFailed? {
        return BaseError;
      }
      if answer.Unchanged? {
        return NoError;
      }
      if buffer.Some? {
        ReallyFree();
      }
      var alignedSize := ComputeAlignedSize();
      buffer := pinBuffer;
      if buffer.None? {
        return OutOfMemory;
      }
      r := MakeSamples(buffer.value, alignedSize, memory);
      if r == NoError {
        changed := false;
      }
    }
  }
}
