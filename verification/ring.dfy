/** The ring-buffer scratch allocator of core.h (`RingBuffer`, `ringbuffer_alloc`).
    Addresses are offsets from the buffer's base; the bytes themselves are not modelled. */
module Rings {
  import opened Mem

  /** RINGBUFFER_SIZE: the size `ring_buffer_init` gives a buffer. */
  const RingBufferSize: nat := 4096

  /** What one allocation hands back: the region `[offset, writePos)` and the new write
      position, which is where that region ends. */
  datatype Grant = Grant(offset: nat, writePos: nat)

  /** One `ringbuffer_alloc(size)` on a buffer of `total` bytes whose write position is `pos`.
      A request that would run past the end restarts at offset 0; nothing compares `size`
      with `total`. */
  function RingAlloc(pos: nat, total: nat, size: nat): (g: Grant)
    ensures g.writePos == g.offset + size
    ensures g.offset == pos <==> pos + size <= total || pos == 0
    ensures g.offset != pos ==> g.offset == 0
  {
    if pos + size > total then Grant(0, size) else Grant(pos, pos + size)
  }

  /** A request no larger than the buffer gets a region inside it, and the write position
      stays within the buffer. */
  lemma RingAllocInBounds(pos: nat, total: nat, size: nat)
    requires size <= total
    ensures RingAlloc(pos, total, size).writePos <= total
  {
  }

  /** The allocation after a grant starts where that grant ended unless it wraps, so two
      consecutive grants do not overlap when the second one does not wrap. */
  lemma ConsecutiveGrantsDisjoint(pos: nat, total: nat, s1: nat, s2: nat)
    requires RingAlloc(pos, total, s1).writePos + s2 <= total
    ensures RingAlloc(RingAlloc(pos, total, s1).writePos, total, s2).offset
            == RingAlloc(pos, total, s1).writePos
  {
  }

  /** A wrapping allocation silently reuses the start of the buffer: it overlaps an earlier,
      still handed-out region that starts below its end. */
  lemma WrapOverwrites(pos: nat, total: nat, s1: nat, s2: nat)
    requires s1 > 0
    requires RingAlloc(pos, total, s1).writePos + s2 > total
    requires RingAlloc(pos, total, s1).offset < s2
    ensures RingAlloc(RingAlloc(pos, total, s1).writePos, total, s2).offset == 0
    ensures RingAlloc(RingAlloc(pos, total, s1).writePos, total, s2).offset
            < RingAlloc(pos, total, s1).writePos
  {
  }

  function Sum(sizes: seq<nat>): nat
  {
    if sizes == [] then 0 else Sum(sizes[..|sizes| - 1]) + sizes[|sizes| - 1]
  }

  /** The offsets handed out by allocating `sizes` in order from write position `pos`, and the
      final write position. */
  function RunRing(pos: nat, total: nat, sizes: seq<nat>): (r: (seq<nat>, nat))
    ensures |r.0| == |sizes|
  {
    if sizes == [] then ([], pos)
    else
      var prev := RunRing(pos, total, sizes[..|sizes| - 1]);
      var g := RingAlloc(prev.1, total, sizes[|sizes| - 1]);
      (prev.0 + [g.offset], g.writePos)
  }

  /** Allocations whose sizes add up to no more than the room left never wrap: each one starts
      where the previous one ended. */
  lemma {:induction false} NoWrapWhileFits(pos: nat, total: nat, sizes: seq<nat>)
    requires pos + Sum(sizes) <= total
    ensures RunRing(pos, total, sizes).1 == pos + Sum(sizes)
    ensures forall i :: 0 <= i < |sizes| ==> RunRing(pos, total, sizes).0[i] == pos + Sum(sizes[..i])
  {
    if sizes != [] {
      var init := sizes[..|sizes| - 1];
      NoWrapWhileFits(pos, total, init);
      forall i | 0 <= i < |sizes|
        ensures RunRing(pos, total, sizes).0[i] == pos + Sum(sizes[..i])
      {
        if i < |init| {
          assert sizes[..i] == init[..i];
        } else {
          assert sizes[..i] == init;
        }
      }
    }
  }

  /** From a position inside the buffer, any run of requests each no larger than the buffer
      keeps every region and the write position inside it. */
  lemma {:induction false} RunRingInBounds(pos: nat, total: nat, sizes: seq<nat>)
    requires pos <= total
    requires forall i :: 0 <= i < |sizes| ==> sizes[i] <= total
    ensures RunRing(pos, total, sizes).1 <= total
    ensures forall i :: 0 <= i < |sizes| ==> RunRing(pos, total, sizes).0[i] + sizes[i] <= total
  {
    if sizes != [] {
      RunRingInBounds(pos, total, sizes[..|sizes| - 1]);
    }
  }

  /** The thread context's ring buffer is zero-initialised: no block, size 0. Any request of
      at least one byte is then granted at offset 0 and runs past the end of the (empty)
      buffer. */
  lemma ZeroedBufferGrantsOutside(size: nat)
    requires size > 0
    ensures RingAlloc(0, 0, size) == Grant(0, size)
    ensures RingAlloc(0, 0, size).writePos > 0
  {
  }

  class RingBuffer {
    /** The block (`base`); null in a zero-initialised buffer. */
    var base: array?<Byte>
    /** Total size of the buffer in bytes. */
    var size: nat
    /** Offset of the next free byte. */
    var writePos: nat

    /** The block, when there is one, has `size` bytes; a buffer without one has size 0. */
    ghost predicate Valid()
      reads this
    {
      (base != null ==> base.Length == size) && (base == null ==> size == 0)
    }

    /** `ring_buffer_init`: a RINGBUFFER_SIZE buffer with nothing handed out. */
    constructor Init()
      ensures Valid() && fresh(base) && size == RingBufferSize && writePos == 0
    {
      base := new Byte[RingBufferSize];
      size, writePos := RingBufferSize, 0;
    }

    /** A zero-initialised `RingBuffer`, as `core_context.ring_buffer` starts out. */
    constructor Zeroed()
      ensures Valid() && base == null && size == 0 && writePos == 0
    {
      base := null;
      size, writePos := 0, 0;
    }

    /** `ringbuffer_alloc` as written: the offset of `request` bytes, restarting at 0 when the
        request would run past the end. Its lazy initialisation is guarded by a null `self`
        (which it then dereferences), so a buffer without a block stays without one. */
    method Alloc(request: nat) returns (offset: nat)
      requires Valid()
      modifies this
      ensures Valid() && base == old(base) && size == old(size)
      ensures Grant(offset, writePos) == RingAlloc(old(writePos), size, request)
    {
      if writePos + request > size {
        writePos := 0;
      }
      offset := writePos;
      writePos := writePos + request;
    }

    /** `ringbuffer_alloc` with its lazy initialisation guarded by a missing block: a
        zero-initialised buffer first becomes a RINGBUFFER_SIZE buffer, so every request that
        fits in RINGBUFFER_SIZE bytes gets a region inside the block. */
    method AllocLazy(request: nat) returns (offset: nat)
      requires Valid()
      modifies this
      ensures Valid() && base != null
      ensures old(base) != null ==> base == old(base) && size == old(size)
      ensures old(base) == null ==> fresh(base) && size == RingBufferSize
      ensures Grant(offset, writePos)
              == RingAlloc(if old(base) == null then 0 else old(writePos), size, request)
      ensures old(base) == null && request <= RingBufferSize ==> offset + request <= base.Length
    {
      if base == null {
        base := new Byte[RingBufferSize];
        size, writePos := RingBufferSize, 0;
      }
      if writePos + request > size {
        writePos := 0;
      }
      offset := writePos;
      writePos := writePos + request;
    }
  }
}
